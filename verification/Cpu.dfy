/** The CPU's state and its memory access: banked registers behind the program status word, relocation that can
    abort, and the processor registers of the I/O page. The C code unwinds a faulting instruction with a
    longjmp; here everything that can fault returns an outcome. */
module Cpu {
  import opened Arith
  import opened Words
  import opened Kt11
  import opened Memory
  import opened Pirq
  import opened Psw

  datatype Outcome<+T> = Done(value: T) | Abort(vec: u16)

  const SP: nat := 6
  const PC: nat := 7

  function Plus(x: u16, d: int): u16 {
    (x + d) % 0x1_0000
  }

  // ---- the register file, with banking forgotten --------------------------------------------------------

  /** Two sets of R0-R5, one stack pointer per mode, and the PC. */
  datatype FlatFile = FlatFile(regs: seq<seq<u16>>, sps: seq<u16>, pc: u16)

  predicate IsFlat(f: FlatFile) {
    |f.regs| == 2 && |f.regs[0]| == 6 && |f.regs[1]| == 6 && |f.sps| == 4
  }

  predicate IsBanked(r: seq<u16>, regfile: seq<seq<u16>>, stackfile: seq<u16>) {
    |r| == 8 && |regfile| == 2 && |regfile[0]| == 6 && |regfile[1]| == 6 && |stackfile| == 4
  }

  function FlatOf(r: seq<u16>, regfile: seq<seq<u16>>, stackfile: seq<u16>, psw: u16): (f: FlatFile)
    requires IsBanked(r, regfile, stackfile)
    ensures IsFlat(f)
  {
    FlatFile(regfile[RegSet(psw) := r[..6]], stackfile[Mode(psw) := r[SP]], r[PC])
  }

  /** The eight registers a program sees under a status word. */
  function View(f: FlatFile, psw: u16): (r: seq<u16>)
    requires IsFlat(f)
    ensures |r| == 8
  {
    f.regs[RegSet(psw)] + [f.sps[Mode(psw)], f.pc]
  }

  /** Writing a register as seen under a status word. */
  function Put(f: FlatFile, psw: u16, k: nat, v: u16): (f': FlatFile)
    requires IsFlat(f) && k < 8
    ensures IsFlat(f')
  {
    if k == PC then f.(pc := v)
    else if k == SP then f.(sps := f.sps[Mode(psw) := v])
    else
      var set': seq<u16> := f.regs[RegSet(psw)][k := v];
      f.(regs := f.regs[RegSet(psw) := set'])
  }

  lemma ViewOfFlat(r: seq<u16>, regfile: seq<seq<u16>>, stackfile: seq<u16>, psw: u16)
    requires IsBanked(r, regfile, stackfile)
    ensures View(FlatOf(r, regfile, stackfile, psw), psw) == r
  {
    hide RegSet, Mode;
  }

  lemma FlatAfterPut(r: seq<u16>, regfile: seq<seq<u16>>, stackfile: seq<u16>, psw: u16, k: nat, v: u16)
    requires IsBanked(r, regfile, stackfile) && k < 8
    ensures FlatOf(r[k := v], regfile, stackfile, psw) == Put(FlatOf(r, regfile, stackfile, psw), psw, k, v)
  {
    hide RegSet, Mode;
    if k < SP {
      assert r[k := v][..6] == r[..6][k := v];
    } else {
      assert r[k := v][..6] == r[..6];
    }
    var s := r[..6];
    assert regfile[RegSet(psw) := s][RegSet(psw)] == s;
  }

  // ---- registers of the I/O page ------------------------------------------------------------------------

  const IO_PSW: u16 := 0xFFFE
  const IO_STKLIM: u16 := 0xFFFC
  const IO_PIRQ: u16 := 0xFFFA
  const IO_CPUERR: u16 := 0xFFF6
  const IO_MMR0: u16 := 0xFF7A
  const IO_MMR1: u16 := 0xFF7C
  const IO_MMR2: u16 := 0xFF7E
  const IO_MMR3: u16 := 0xF54E

  datatype Apr = NoApr | Par(idx: nat) | Pdr(idx: nat)

  /** The page register at an I/O address: each mode has four blocks of eight, I and D space PDRs, then PARs. */
  function AprAt(a: u16): (apr: Apr)
    ensures apr != NoApr ==> apr.idx < 64
  {
    if 0xF480 <= a < 0xF4C0 then AprIn(1, a - 0xF480)
    else if 0xF4C0 <= a < 0xF500 then AprIn(0, a - 0xF4C0)
    else if 0xFF80 <= a < 0xFFC0 then AprIn(3, a - 0xFF80)
    else NoApr
  }

  function AprIn(mode: nat, off: nat): (apr: Apr)
    requires mode < 4 && off < 64
    ensures apr != NoApr ==> apr.idx < 64
  {
    var idx := mode * 16 + off / 16 % 2 * 8 + off % 16 / 2;
    if off % 16 == 15 then NoApr else if off >= 32 then Par(idx) else Pdr(idx)
  }

  /** The page registers of an access are at the addresses a program knows them by: kernel descriptors from octal
      172300, supervisor from 172200, user from 177600, data space 020 above instruction space and the address
      registers 040 above the descriptors. Data space has its own registers if MMR3<2>, <1> or <0> enables it. */
  lemma PageRegisters(mmr3: u16, va: u16, mode: nat, dspace: bool)
    requires mode in {0, 1, 3}
    ensures var block := match mode case 0 => 0xF4C0 case 1 => 0xF480 case _ => 0xFF80;
            var enabled := match mode case 0 => mmr3 / 4 % 2 case 1 => mmr3 / 2 % 2 case _ => mmr3 % 2;
            var a := block + (if dspace && enabled == 1 then 0x10 else 0) + 2 * (va / 0x2000);
            && AprAt(a) == Pdr(PageIndex(mmr3, va, mode, dspace))
            && AprAt(a + 0x20) == Par(PageIndex(mmr3, va, mode, dspace))
  {
    var d, page := dspace && DataSpaceOn(mmr3, mode), va / 0x2000;
    assert PageIndex(mmr3, va, mode, dspace) == Slot(mode, page, d);
    SlotAddresses(mode, page, d);
    hide AprAt, PageIndex, Slot;
  }

  function Slot(mode: nat, page: nat, d: bool): nat { mode * 16 + (if d then 8 else 0) + page }

  lemma SlotAddresses(mode: nat, page: nat, d: bool)
    requires mode in {0, 1, 3} && page < 8
    ensures var block := match mode case 0 => 0xF4C0 case 1 => 0xF480 case _ => 0xFF80;
            var a := block + (if d then 0x10 else 0) + 2 * page;
            AprAt(a) == Pdr(Slot(mode, page, d)) && AprAt(a + 0x20) == Par(Slot(mode, page, d))
  {
    BlockSlot(mode, page, d, false);
    BlockSlot(mode, page, d, true);
    hide AprIn;
  }

  lemma BlockSlot(mode: nat, page: nat, d: bool, par: bool)
    requires mode < 4 && page < 8
    ensures var off := (if d then 0x10 else 0) + 2 * page + if par then 0x20 else 0;
            off < 64 && AprIn(mode, off) == if par then Par(Slot(mode, page, d)) else Pdr(Slot(mode, page, d))
  {
    var q := (if d then 1 else 0) + if par then 2 else 0;
    ModUnique(q * 16 + 2 * page, 16, q, 2 * page);
  }

  /** The register a physical address in the I/O page belongs to. */
  function IoAddress(pa: nat): u16 { pa % 0x1_0000 / 2 * 2 }

  /** Of MMR0 a program writes every bit but 11 and 10. */
  function MaskMmr0(v: u16): (w: u16)
    ensures w / 0x1000 == v / 0x1000 && w / 0x400 % 4 == 0 && w % 0x400 == v % 0x400
  {
    FieldsAbove(v / 0x1000, 0x1000, v % 0x400, 0x400);
    v / 0x1000 * 0x1000 + v % 0x400
  }

  lemma FieldsAbove(h: nat, d: nat, l: nat, k: nat)
    requires d == 4 * k && l < k
    ensures var w := h * d + l; w / d == h && w / k % 4 == 0 && w % k == l
  {
    var w := h * d + l;
    assert w == h * 4 * k + l;
    DivUnique(w, d, h);
    ModUnique(w, k, h * 4, l);
  }

  /** Of MMR3 the relocation width, the Unibus map enable and the three data-space enables. */
  function MaskMmr3(v: u16): (w: u16)
    ensures w < 0x40 && w / 32 % 2 == v / 32 % 2 && w / 16 % 2 == v / 16 % 2 && w / 8 % 2 == 0
    ensures w / 4 % 2 == v / 4 % 2 && w / 2 % 2 == v / 2 % 2 && w % 2 == v % 2
  {
    Mmr3Bits(v);
    v / 16 % 4 * 16 + v % 8
  }

  lemma Mmr3Bits(v: u16)
    ensures var w := v / 16 % 4 * 16 + v % 8;
            && 0 <= w < 0x40 && w / 32 % 2 == v / 32 % 2 && w / 16 % 2 == v / 16 % 2 && w / 8 % 2 == 0
            && w / 4 % 2 == v / 4 % 2 && w / 2 % 2 == v / 2 % 2 && w % 2 == v % 2
  {
    var h, l := v / 16 % 4, v % 8;
    var w := h * 16 + l;
    LowBits(v, v / 8, l);
    LowBits(w, h * 2, l);
    TwoBits(v, v / 16 / 4, h);
    TwoBits(w, 0, h);
    DivUnique(w, 8, h * 2);
  }

  /** Bits 4 and 5 of a number, from those two. */
  lemma TwoBits(w: nat, q: nat, h: nat)
    requires h < 4 && w / 16 == q * 4 + h
    ensures w / 16 % 2 == h % 2 && w / 32 % 2 == h / 2
  {
    DivDiv(w, 16, 2);
    ModUnique(q * 4 + h, 2, q * 2 + h / 2, h % 2);
    ModUnique(q * 2 + h / 2, 2, q, h / 2);
  }

  lemma LowBits(w: nat, q: nat, l: nat)
    requires w == q * 8 + l && l < 8
    ensures w / 4 % 2 == l / 4 && w / 2 % 2 == l / 2 % 2 && w % 2 == l % 2
  {
    DivUnique(w, 4, q * 2 + l / 4);
    ModUnique(q * 2 + l / 4, 2, q, l / 4);
    ModUnique(w, 2, q * 4 + l / 2, l % 2);
    ModUnique(q * 4 + l / 2, 2, q * 2 + l / 2 / 2, l / 2 % 2);
  }

  /** A program's write to a page descriptor keeps its three fields and clears the accessed and written flags. */
  function MaskPdr(v: u16): (w: u16)
    ensures PageLength(w) == PageLength(v) && Downward(w) == Downward(v) && AccessControl(w) == AccessControl(v)
    ensures !Accessed(w) && !Written(w) && w < 0x8000 && w / 16 % 4 == 0
  {
    DescriptorFields(v);
    PdrKept(PageLength(v), v % 16);
    LowNibble(v);
    v / 0x100 % 0x80 * 0x100 + v % 16
  }

  lemma PdrKept(length: nat, low: nat)
    requires length < 128 && low < 16
    ensures var w := length * 0x100 + low;
            && w < 0x8000 && w / 0x100 % 0x80 == length && w / 128 % 2 == 0 && w / 64 % 2 == 0 && w / 16 % 4 == 0
            && w / 8 % 2 == low / 8 && w % 8 == low % 8
  {
    var w := length * 0x100 + low;
    DivUnique(w, 0x100, length);
    DivUnique(w, 128, length * 2);
    DivUnique(w, 64, length * 4);
    DivUnique(w, 16, length * 16);
    DivUnique(w, 8, length * 32 + low / 8);
    ModUnique(w, 8, length * 32 + low / 8, low % 8);
  }

  lemma LowNibble(v: nat)
    ensures v % 16 / 8 == v / 8 % 2 && v % 16 % 8 == v % 8
  {
    var q, l := v / 16, v % 16;
    ModUnique(v, 8, q * 2 + l / 8, l % 8);
  }

  function AfterIoWrite(m: Mapping, a: u16, value: u16): (m': Mapping)
    requires WellFormed(m)
    ensures WellFormed(m')
  {
    if a == IO_MMR0 then m.(mmr0 := MaskMmr0(value))
    else if a == IO_MMR3 then m.(mmr3 := MaskMmr3(value))
    else match AprAt(a)
      case Par(idx) => m.(par := m.par[idx := value])
      case Pdr(idx) => m.(pdr := m.pdr[idx := MaskPdr(value)])
      case NoApr => m
  }

  /** A word written to an address changes the register there and no other; the page registers take it whole or, for
      a descriptor, its fields. */
  lemma StoresOneRegister(m: Mapping, a: u16, value: u16, b: u16)
    requires WellFormed(m) && a % 2 == 0 && b % 2 == 0
    ensures var m' := AfterIoWrite(m, a, value);
            && m'.mmr0 == (if a == 0xFF7A then MaskMmr0(value) else m.mmr0)
            && m'.mmr3 == (if a == 0xF54E then MaskMmr3(value) else m.mmr3)
            && match AprAt(b)
               case Par(idx) => m'.par[idx] == if b == a then value else m.par[idx]
               case Pdr(idx) => m'.pdr[idx] == if b == a then MaskPdr(value) else m.pdr[idx]
               case NoApr => true
  {
    AprIsAt(a);
    AprIsAt(b);
    assert AprAt(0xFF7A) == AprAt(0xF54E) == NoApr;
    hide AprAt, AddressOf, MaskMmr0, MaskMmr3, MaskPdr;
  }

  /** The address of a page register. */
  function AddressOf(apr: Apr): int
    requires apr != NoApr
  {
    (match apr.idx / 16 case 0 => 0xF4C0 case 1 => 0xF480 case _ => 0xFF80)
    + (if apr.Par? then 0x20 else 0) + apr.idx / 8 % 2 * 0x10 + apr.idx % 8 * 2
  }

  lemma AprIsAt(a: u16)
    requires a % 2 == 0
    ensures AprAt(a) != NoApr ==> AddressOf(AprAt(a)) == a
  {
    hide AprIn, AddressOf;
    if 0xF480 <= a < 0xF4C0 {
      InBlock(1, 0xF480, a - 0xF480);
    } else if 0xF4C0 <= a < 0xF500 {
      InBlock(0, 0xF4C0, a - 0xF4C0);
    } else if 0xFF80 <= a < 0xFFC0 {
      InBlock(3, 0xFF80, a - 0xFF80);
    }
  }

  lemma InBlock(mode: nat, block: nat, off: nat)
    requires off < 64 && off % 2 == 0
    requires (mode == 0 && block == 0xF4C0) || (mode == 1 && block == 0xF480) || (mode == 3 && block == 0xFF80)
    ensures AprIn(mode, off) != NoApr ==> AddressOf(AprIn(mode, off)) == block + off
  {
    SlotParts(mode, off);
  }

  lemma SlotParts(mode: nat, off: nat)
    requires mode < 4 && off < 64 && off % 2 == 0
    ensures var idx := mode * 16 + off / 16 % 2 * 8 + off % 16 / 2;
            && idx / 16 == mode && idx % 8 == off % 16 / 2 && idx / 8 % 2 == off / 16 % 2
            && off == (if off >= 32 then 32 else 0) + off / 16 % 2 * 16 + off % 16 / 2 * 2
  {
    var d, page := off / 16 % 2, off % 16 / 2;
    var idx := mode * 16 + d * 8 + page;
    ModUnique(idx, 8, mode * 2 + d, page);
    ModUnique(mode * 2 + d, 2, mode, d);
    DivUnique(idx, 16, mode);
  }

  /** The processor's state apart from the mapping registers and memory. */
  datatype CoreState = CoreState(r: seq<u16>, psw: u16, regfile: seq<seq<u16>>, stackfile: seq<u16>,
                                 mmr1: u16, mmr2: u16, stklim: u16, cpuerr: u16, pirq: u16,
                                 yellowPending: bool, inTrapPush: bool, servicingStackTrap: bool,
                                 tracePending: bool, ccFrozen: bool)

  /** What a word stored at an address of the I/O page does to this processor's registers. */
  predicate StoresRegister(a: u16, value: u16, m: Mapping, psw: u16, o: Outcome<()>, m': Mapping, psw': u16, pirq': u16,
                           stklim': u16, cpuerr': u16)
    requires WellFormed(m)
  {
    && m' == AfterIoWrite(m, a, value)
    && (if a == IO_PSW then o.Done? && psw' == MaskPsw(WithTraceOf(value, psw)) else psw' == psw)
    && (a == IO_PIRQ ==> o.Done? && pirq' == Echoed(value))
    && (a == IO_STKLIM ==> o.Done? && stklim' == value / 256 * 256)
    && (a == IO_CPUERR ==> o.Done? && cpuerr' == 0)
    && (a == IO_MMR1 || a == IO_MMR2 ==> o == Abort(VEC_BUS))
    && (AprAt(a) != NoApr || a == IO_MMR0 || a == IO_MMR3 ==> o.Done?)
  }

  datatype Held = Known(w: u16) | Elsewhere

  // ---- the machine ----------------------------------------------------------------------------------------

  class Cpu {
    var r: seq<u16>
    var psw: u16
    var regfile: seq<seq<u16>>
    var stackfile: seq<u16>
    var kt: Mapping
    var mmr1: u16
    var mmr2: u16
    var stklim: u16
    var cpuerr: u16
    var pirq: u16
    var yellowPending: bool
    var inTrapPush: bool
    var servicingStackTrap: bool
    var tracePending: bool
    var ccFrozen: bool
    const mem: array<u16>
    const memTop: nat

    /** pdp11_cpu_reset */
    constructor (memTop: nat)
      ensures Valid() && fresh(mem) && this.memTop == memTop
      ensures Flat() == FlatFile(seq(2, _ => seq(6, _ => 0)), seq(4, _ => 0), 0) && psw == 0
      ensures !Enabled(kt.mmr0) && !Frozen(kt.mmr0)
    {
      r := seq(8, _ => 0);
      psw := 0;
      regfile := seq(2, _ => seq(6, _ => 0));
      stackfile := seq(4, _ => 0);
      kt := Mapping(0, 0, seq(64, _ => 0), seq(64, _ => 0));
      mmr1, mmr2, stklim, cpuerr, pirq := 0, 0, 0, 0, 0;
      yellowPending, inTrapPush, servicingStackTrap, tracePending, ccFrozen := false, false, false, false, false;
      mem := new u16[MEM_WORDS](_ => 0);
      this.memTop := memTop;
      new;
      assert Flat().regs[0] == seq(6, _ => 0);
    }

    ghost predicate Valid()
      reads this
    {
      IsBanked(r, regfile, stackfile) && WellFormed(kt) && Masked(psw) && mem.Length == MEM_WORDS
    }

    ghost function Flat(): (f: FlatFile)
      requires Valid()
      reads this
      ensures IsFlat(f)
    {
      FlatOf(r, regfile, stackfile, psw)
    }

    method SetReg(k: nat, v: u16)
      requires Valid() && k < 8
      modifies `r
      ensures Valid() && r == old(r)[k := v] && Flat() == Put(old(Flat()), psw, k, v)
    {
      FlatAfterPut(r, regfile, stackfile, psw, k, v);
      r := r[k := v];
    }

    /** put_psw: changing the status word swaps banks, and the flat file never notices. */
    method PutPsw(newPsw: u16)
      requires Valid()
      modifies `r, `regfile, `stackfile, `psw
      ensures Valid() && psw == MaskPsw(newPsw) && Flat() == old(Flat())
      ensures r == View(old(Flat()), psw)
    {
      var masked := MaskPsw(newPsw);
      ExchangeSets(RegSet(psw), RegSet(masked));
      var oldMode, newMode := Mode(psw), Mode(masked);
      if newMode != oldMode {
        stackfile := stackfile[oldMode := r[SP]];
        r := r[SP := stackfile[newMode]];
      }
      psw := masked;
      assert r[..6] == regfile[RegSet(masked)] || r[..6] == old(r)[..6];
      assert r[PC] == old(r)[PC];
      hide RegSet, Mode, MaskPsw, Masked;
      ViewOfFlat(r, regfile, stackfile, psw);
    }

    method ExchangeSets(oldSet: nat, newSet: nat)
      requires IsBanked(r, regfile, stackfile) && oldSet < 2 && newSet < 2
      modifies `r, `regfile
      ensures IsBanked(r, regfile, stackfile)
      ensures oldSet == newSet ==> r == old(r) && regfile == old(regfile)
      ensures oldSet != newSet ==> regfile == old(regfile)[oldSet := old(r)[..6]]
      ensures oldSet != newSet ==> r == old(regfile)[newSet] + old(r)[6..]
    {
      if newSet != oldSet {
        var i := 0;
        while i < 6
          invariant 0 <= i <= 6 && IsBanked(r, regfile, stackfile)
          invariant regfile[newSet] == old(regfile)[newSet]
          invariant forall k :: 0 <= k < 6 ==>
                      regfile[oldSet][k] == if k < i then old(r)[k] else old(regfile)[oldSet][k]
          invariant forall k :: 0 <= k < 8 ==> r[k] == if k < i then old(regfile)[newSet][k] else old(r)[k]
        {
          regfile := regfile[oldSet := regfile[oldSet][i := r[i]]];
          r := r[i := regfile[newSet][i]];
          i := i + 1;
        }
        assert regfile[oldSet] == old(r)[..6];
        assert regfile == old(regfile)[oldSet := old(r)[..6]];
      }
    }

    // ---- relocation and memory ----------------------------------------------------------------------------

    /** Everything but the mapping registers and memory. */
    ghost function Core(): CoreState
      reads this
    {
      CoreState(r, psw, regfile, stackfile, mmr1, mmr2, stklim, cpuerr, pirq,
                yellowPending, inTrapPush, servicingStackTrap, tracePending, ccFrozen)
    }

    method Relocate(va: u16, write: bool, mode: nat, dspace: bool) returns (o: Outcome<nat>)
      requires Valid() && mode < 4
      modifies `kt
      ensures Valid() && kt == AfterAccess(old(kt), va, write, mode, dspace)
      ensures o == match Translate(old(kt), va, write, mode, dspace)
                   case Physical(pa) => Done(pa)
                   case Violation(_, _) => Abort(VEC_MME)
    {
      if Enabled(kt.mmr0) {
        var idx := PageIndex(kt.mmr3, va, mode, dspace);
        var pdr := kt.pdr[idx];
        var err: u16 := AcfViolation(AccessControl(pdr), write);
        if OutsideLength(pdr, va) {
          err := err + MMR0_PL;
        }
        if err != 0 {
          if !Frozen(kt.mmr0) {
            kt := kt.(mmr0 := kt.mmr0 - kt.mmr0 / 2 % 64 * 2 + idx * 2 + err);
          }
          return Abort(VEC_MME);
        }
        kt := kt.(pdr := kt.pdr[idx := SetAccessed(kt.pdr[idx])]);
        if write {
          kt := kt.(pdr := kt.pdr[idx := SetWritten(kt.pdr[idx])]);
        }
        assert kt.pdr == old(kt).pdr[idx := Marked(pdr, write)];
        return Done(Relocated(kt.mmr3, kt.par[idx], va));
      }
      return Done(if va >= 0xE000 then 0x3F_0000 + va else va);
    }

    /** What this processor's registers in the I/O page hold; any other address belongs to a device, which answers
        with some word or not at all. */
    function Register(a: u16): (v: Held)
      requires Valid()
      reads this
    {
      if a == IO_PSW then Known(psw)
      else if a == IO_PIRQ then Known(pirq)
      else if a == IO_MMR0 then Known(kt.mmr0)
      else if a == IO_MMR1 then Known(mmr1)
      else if a == IO_MMR2 then Known(mmr2)
      else if a == IO_MMR3 then Known(kt.mmr3)
      else match AprAt(a)
        case Par(idx) => Known(kt.par[idx])
        case Pdr(idx) => Known(kt.pdr[idx])
        case NoApr =>
          if a == IO_STKLIM then Known(stklim / 256 * 256)
          else if a == IO_CPUERR then Known(cpuerr / 4 % 64 * 4)
          else Elsewhere
    }

    method IoRead(a: u16) returns (o: Outcome<u16>)
      requires Valid()
      ensures o.Abort? ==> o.vec == VEC_BUS
      ensures Register(a).Known? ==> o == Done(Register(a).w)
    {
      if a == IO_PSW {
        return Done(psw);
      } else if a == IO_PIRQ {
        return Done(pirq);
      } else if a == IO_MMR0 {
        return Done(kt.mmr0);
      } else if a == IO_MMR1 {
        return Done(mmr1);
      } else if a == IO_MMR2 {
        return Done(mmr2);
      } else if a == IO_MMR3 {
        return Done(kt.mmr3);
      }
      match AprAt(a)
      case Par(idx) => return Done(kt.par[idx]);
      case Pdr(idx) => return Done(kt.pdr[idx]);
      case NoApr =>
        if a == IO_STKLIM {
          return Done(stklim / 256 * 256);
        } else if a == IO_CPUERR {
          return Done(cpuerr / 4 % 64 * 4);
        }
        var answer: u16 := *;
        if * {
          return Abort(VEC_BUS);
        }
        return Done(answer);
    }

    method IoWrite(a: u16, value: u16) returns (o: Outcome<()>)
      requires Valid()
      modifies `r, `psw, `regfile, `stackfile, `kt, `stklim, `cpuerr, `pirq, `ccFrozen
      ensures Valid() && Flat() == old(Flat())
      ensures o.Abort? ==> o.vec == VEC_BUS && Core() == old(Core()) && kt == old(kt)
      ensures a == IO_PSW ==> o.Done? && psw == MaskPsw(WithTraceOf(value, old(psw))) && ccFrozen
      ensures a != IO_PSW ==> r == old(r) && psw == old(psw) && regfile == old(regfile) && stackfile == old(stackfile)
      ensures kt == AfterIoWrite(old(kt), a, value)
      ensures a == IO_PIRQ ==> o.Done? && pirq == Echoed(value)
      ensures a == IO_STKLIM ==> o.Done? && stklim == value / 256 * 256
      ensures a == IO_CPUERR ==> o.Done? && cpuerr == 0
      ensures a == IO_MMR1 || a == IO_MMR2 ==> o == Abort(VEC_BUS)
      ensures AprAt(a) != NoApr || a == IO_MMR0 || a == IO_MMR3 ==> o.Done?
      ensures AprAt(a).Par? ==> Register(a) == Known(value)
      ensures AprAt(a).Pdr? ==> Register(a) == Known(MaskPdr(value))
    {
      if a == IO_PSW {
        PutPsw(WithTraceOf(value, psw));
        ccFrozen := true;
        return Done(());
      } else if a == IO_PIRQ {
        PutPirq(value);
        return Done(());
      } else if a == IO_STKLIM {
        stklim := value / 256 * 256;
        return Done(());
      } else if a == IO_CPUERR {
        cpuerr := 0;
        return Done(());
      } else if a == IO_MMR1 || a == IO_MMR2 {
        return Abort(VEC_BUS);
      }
      o := MappingWrite(a, value);
    }

    /** put_PIRQ */
    method PutPirq(value: u16)
      modifies `pirq
      ensures pirq == Echoed(value)
    {
      var req := value / 512 * 512;
      var level := HighestPirLevel(req);
      pirq := req + level * 32 + level * 2;
    }

    method MappingWrite(a: u16, value: u16) returns (o: Outcome<()>)
      requires Valid() && a != IO_PSW && a != IO_PIRQ
      modifies `kt
      ensures Valid() && kt == AfterIoWrite(old(kt), a, value)
      ensures o.Abort? ==> o.vec == VEC_BUS && kt == old(kt)
      ensures AprAt(a) != NoApr || a == IO_MMR0 || a == IO_MMR3 ==> o.Done?
    {
      if a == IO_MMR0 {
        kt := kt.(mmr0 := MaskMmr0(value));
        return Done(());
      } else if a == IO_MMR3 {
        kt := kt.(mmr3 := MaskMmr3(value));
        return Done(());
      }
      match AprAt(a)
      case Par(idx) =>
        kt := kt.(par := kt.par[idx := value]);
        return Done(());
      case Pdr(idx) =>
        kt := kt.(pdr := kt.pdr[idx := MaskPdr(value)]);
        return Done(());
      case NoApr =>
        if * {
          return Abort(VEC_BUS);
        }
        return Done(());
    }

    method ReadWordGen(va: u16, mode: nat, dspace: bool) returns (o: Outcome<u16>)
      requires Valid() && mode < 4
      modifies `kt
      ensures Valid() && kt == AfterWordAccess(old(kt), va, false, mode, dspace)
      ensures var p := LocateWord(old(kt), memTop, va, false, mode, dspace);
              && (p.Ram? ==> o == Done(mem[p.pa / 2]))
              && (p.Fault? ==> o == Abort(p.vec))
              && (p.Io? && o.Abort? ==> o.vec == VEC_BUS)
              && (p.Io? && Register(p.pa % 0x1_0000).Known? ==> o == Done(Register(p.pa % 0x1_0000).w))
      ensures LayoutOf(kt) == LayoutOf(old(kt)) && (o.Done? ==> kt.mmr0 == old(kt).mmr0)
    {
      if va % 2 == 1 {
        return Abort(VEC_BUS);
      }
      var t := Relocate(va, false, mode, dspace);
      AccessKeepsLayout(old(kt), va, false, mode, dspace);
      if t.Abort? {
        return Abort(t.vec);
      }
      if t.value >= IOPAGE_TOP {
        o := IoRead(t.value % 0x1_0000);
      } else if t.value >= memTop {
        return Abort(VEC_BUS);
      } else {
        var word := ReadWord(mem, t.value);
        return Done(word);
      }
    }

    method WriteWordMode(va: u16, mode: nat, dspace: bool, value: u16) returns (o: Outcome<()>)
      requires Valid() && mode < 4
      modifies `r, `psw, `regfile, `stackfile, `kt, `stklim, `cpuerr, `pirq, `ccFrozen, mem
      ensures Valid() && Flat() == old(Flat())
      ensures var p := LocateWord(old(kt), memTop, va, true, mode, dspace);
              && (!p.Io? ==> Core() == old(Core()) && kt == AfterWordAccess(old(kt), va, true, mode, dspace))
              && (p.Ram? ==> o.Done? && mem[..] == Stored(old(mem[..]), p.pa, false, value))
              && (p.Fault? ==> o == Abort(p.vec))
              && (!p.Ram? ==> mem[..] == old(mem[..]))
              && (p.Io? && o.Abort? ==> o.vec == VEC_BUS && Core() == old(Core()))
              && (!p.Io? ==> LayoutOf(kt) == LayoutOf(old(kt)))
              && (p.Io? ==> StoresRegister(p.pa % 0x1_0000, value, AfterWordAccess(old(kt), va, true, mode, dspace),
                                           old(psw), o, kt, psw, pirq, stklim, cpuerr))
    {
      if va % 2 == 1 {
        return Abort(VEC_BUS);
      }
      var t := Relocate(va, true, mode, dspace);
      AccessKeepsLayout(old(kt), va, true, mode, dspace);
      if t.Abort? {
        return Abort(t.vec);
      }
      if t.value >= IOPAGE_TOP {
        o := IoWrite(t.value % 0x1_0000, value);
      } else if t.value >= memTop {
        return Abort(VEC_BUS);
      } else {
        WriteWord(mem, t.value, value);
        return Done(());
      }
    }

    method ReadByteAt(va: u16) returns (o: Outcome<u16>)
      requires Valid()
      modifies `kt
      ensures Valid() && kt == AfterAccess(old(kt), va, false, Mode(psw), true)
      ensures var p := Locate(old(kt), memTop, va, false, Mode(psw), true);
              && (p.Ram? ==> o == Done(Loaded(mem[..], p.pa, true)))
              && (p.Fault? ==> o == Abort(p.vec))
              && (p.Io? && o.Abort? ==> o.vec == VEC_BUS)
              && (p.Io? && Register(IoAddress(p.pa)).Known? ==>
                  o == Done(HalfOf(Register(IoAddress(p.pa)).w, p.pa % 2 == 1)))
      ensures LayoutOf(kt) == LayoutOf(old(kt)) && (o.Done? ==> o.value < 256 && kt.mmr0 == old(kt).mmr0)
    {
      var t := Relocate(va, false, Mode(psw), true);
      AccessKeepsLayout(old(kt), va, false, Mode(psw), true);
      if t.Abort? {
        return Abort(t.vec);
      }
      if t.value >= IOPAGE_TOP {
        var w := IoRead(IoAddress(t.value));
        return if w.Abort? then w else Done(HalfOf(w.value, t.value % 2 == 1));
      } else if t.value >= memTop {
        return Abort(VEC_BUS);
      } else {
        var b := ReadByte(mem, t.value);
        return Done(b);
      }
    }

    /** A byte store into the I/O page reads the register, merges the byte and writes it back. */
    method IoWriteByte(pa: nat, value: nat) returns (o: Outcome<()>)
      requires Valid() && value < 256
      modifies `r, `psw, `regfile, `stackfile, `kt, `stklim, `cpuerr, `pirq, `ccFrozen
      ensures Valid() && Flat() == old(Flat())
      ensures o.Abort? ==> o.vec == VEC_BUS && Core() == old(Core())
      ensures var a := IoAddress(pa);
              var held := old(Register(a));
              held.Known? ==>
                var merged := WithHalf(held.w, pa % 2 == 1, value);
                && kt == AfterIoWrite(old(kt), a, merged)
                && (a == IO_PSW ==> o.Done? && psw == MaskPsw(WithTraceOf(merged, old(psw))) && ccFrozen)
                && (a == IO_PIRQ ==> o.Done? && pirq == Echoed(merged))
                && (a == IO_STKLIM ==> o.Done? && stklim == merged / 256 * 256)
                && (a == IO_CPUERR ==> o.Done? && cpuerr == 0)
    {
      var a := IoAddress(pa);
      var w := IoRead(a);
      if w.Abort? {
        return Abort(w.vec);
      }
      o := IoWrite(a, WithHalf(w.value, pa % 2 == 1, value));
    }

    method WriteByteAt(va: u16, value: nat) returns (o: Outcome<()>)
      requires Valid() && value < 256
      modifies `r, `psw, `regfile, `stackfile, `kt, `stklim, `cpuerr, `pirq, `ccFrozen, mem
      ensures Valid() && Flat() == old(Flat())
      ensures var p := Locate(old(kt), memTop, va, true, Mode(old(psw)), true);
              && (!p.Io? ==> Core() == old(Core()) && kt == AfterAccess(old(kt), va, true, Mode(psw), true))
              && (p.Ram? ==> o.Done? && mem[..] == Stored(old(mem[..]), p.pa, true, value))
              && (p.Fault? ==> o == Abort(p.vec))
              && (!p.Ram? ==> mem[..] == old(mem[..]))
              && (p.Io? && o.Abort? ==> o.vec == VEC_BUS && Core() == old(Core()))
              && (!p.Io? ==> LayoutOf(kt) == LayoutOf(old(kt)))
              && (p.Io? && IoAddress(p.pa) == IO_PSW ==>
                  o.Done? && psw == MaskPsw(WithTraceOf(WithHalf(old(psw), p.pa % 2 == 1, value), old(psw))))
              && (p.Io? && IoAddress(p.pa) == IO_PIRQ ==>
                  o.Done? && pirq == Echoed(WithHalf(old(pirq), p.pa % 2 == 1, value)))
              && (p.Io? && IoAddress(p.pa) == IO_STKLIM ==>
                  o.Done? && stklim == WithHalf(old(stklim) / 256 * 256, p.pa % 2 == 1, value) / 256 * 256)
              && (p.Io? && IoAddress(p.pa) == IO_CPUERR ==> o.Done? && cpuerr == 0)
    {
      AccessKeepsLayout(kt, va, true, Mode(psw), true);
      hide LayoutOf, AfterIoWrite, AprAt, WithTraceOf, WithHalf, MaskPsw, Echoed, Stored;
      var t := Relocate(va, true, Mode(psw), true);
      if t.Abort? {
        return Abort(t.vec);
      }
      if t.value >= IOPAGE_TOP {
        o := IoWriteByte(t.value, value);
      } else if t.value >= memTop {
        return Abort(VEC_BUS);
      } else {
        WriteByte(mem, t.value, value);
        return Done(());
      }
    }
  }

  /** The processor's registers by their physical addresses: the status word at octal 17777776, the stack limit at
      17777774, program requests at 17777772, the error register at 17777766, and the management registers at
      17777572 to 17777576 and 17772516. */
  lemma RegisterAddresses(cpu: Cpu)
    requires cpu.Valid()
    ensures cpu.Register(0x3F_FFFE % 0x1_0000) == Known(cpu.psw)
    ensures cpu.Register(0x3F_FFFC % 0x1_0000) == Known(cpu.stklim / 256 * 256)
    ensures cpu.Register(0x3F_FFFA % 0x1_0000) == Known(cpu.pirq)
    ensures cpu.Register(0x3F_FFF6 % 0x1_0000) == Known(cpu.cpuerr / 4 % 64 * 4)
    ensures cpu.Register(0x3F_FF7A % 0x1_0000) == Known(cpu.kt.mmr0)
    ensures cpu.Register(0x3F_FF7C % 0x1_0000) == Known(cpu.mmr1)
    ensures cpu.Register(0x3F_FF7E % 0x1_0000) == Known(cpu.mmr2)
    ensures cpu.Register(0x3F_F54E % 0x1_0000) == Known(cpu.kt.mmr3)
  {
    ModUnique(0x3F_FFFE, 0x1_0000, 0x3F, 0xFFFE);
    ModUnique(0x3F_FFFC, 0x1_0000, 0x3F, 0xFFFC);
    ModUnique(0x3F_FFFA, 0x1_0000, 0x3F, 0xFFFA);
    ModUnique(0x3F_FFF6, 0x1_0000, 0x3F, 0xFFF6);
    ModUnique(0x3F_FF7A, 0x1_0000, 0x3F, 0xFF7A);
    ModUnique(0x3F_FF7C, 0x1_0000, 0x3F, 0xFF7C);
    ModUnique(0x3F_FF7E, 0x1_0000, 0x3F, 0xFF7E);
    ModUnique(0x3F_F54E, 0x1_0000, 0x3F, 0xF54E);
  }
}
