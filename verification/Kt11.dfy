/** KT11 memory management: translating a virtual address, as a function of the mapping registers. */
module Kt11 {
  import opened Arith
  import opened Words

  /** The mapping registers a translation depends on. PAR and PDR are indexed mode*16 + dspace*8 + page. */
  datatype Mapping = Mapping(mmr0: u16, mmr3: u16, par: seq<u16>, pdr: seq<u16>)

  predicate WellFormed(m: Mapping) {
    |m.par| == 64 && |m.pdr| == 64
  }

  /** Either a physical address, or the MMR0 error bits and the page they were raised on. */
  datatype Translation = Physical(pa: nat) | Violation(err: u16, idx: nat)

  const MMR0_RO: u16 := 0x2000
  const MMR0_PL: u16 := 0x4000
  const MMR0_NR: u16 := 0x8000
  const IOPAGE_TOP: nat := 0x3F_E000
  const PA_LIMIT: nat := 0x40_0000

  predicate Enabled(mmr0: u16) { mmr0 % 2 == 1 }

  /** Any error bit set: the fault registers hold an earlier fault. */
  predicate Frozen(mmr0: u16) { mmr0 >= 0x2000 }

  lemma FrozenIff(mmr0: u16)
    ensures Frozen(mmr0) <==> mmr0 / 0x8000 == 1 || mmr0 / 0x4000 % 2 == 1 || mmr0 / 0x2000 % 2 == 1
  {
  }

  function AccessControl(pdr: u16): nat { pdr % 8 }

  predicate Downward(pdr: u16) { pdr / 8 % 2 == 1 }

  function PageLength(pdr: u16): nat { pdr / 256 % 128 }

  function BlockNumber(va: u16): nat { va / 64 % 128 }

  /** The error bit, if any, an access-control field raises for a direction of access. */
  function AcfViolation(acf: nat, write: bool): u16 {
    if write then (if acf == 4 || acf == 5 || acf == 6 then 0 else if acf == 2 then MMR0_RO else MMR0_NR)
    else if acf == 1 || acf == 2 || acf == 4 || acf == 5 || acf == 6 then 0 else MMR0_NR
  }

  predicate OutsideLength(pdr: u16, va: u16) {
    if Downward(pdr) then BlockNumber(va) * 64 < PageLength(pdr) * 64
    else BlockNumber(va) * 64 > PageLength(pdr) * 64
  }

  /** The D-space enable bit of a mode in MMR3; mode 2 has none. */
  predicate DataSpaceOn(mmr3: u16, mode: nat) {
    match mode
    case 0 => mmr3 / 4 % 2 == 1
    case 1 => mmr3 / 2 % 2 == 1
    case 3 => mmr3 % 2 == 1
    case _ => false
  }

  function PageIndex(mmr3: u16, va: u16, mode: nat, dspace: bool): (idx: nat)
    requires mode < 4
    ensures idx < 64
  {
    mode * 16 + (if dspace && DataSpaceOn(mmr3, mode) then 8 else 0) + va / 0x2000
  }

  /** 22-bit relocation, folded onto the top of memory when only 18 bits are in use. */
  function Relocated(mmr3: u16, par: u16, va: u16): (pa: nat)
    ensures pa < PA_LIMIT
  {
    var pa := (va % 0x2000 + par * 64) % PA_LIMIT;
    if mmr3 / 16 % 2 == 1 then pa
    else
      var low := pa % 0x4_0000;
      if low >= 0x3_E000 then 0x3C_0000 + low else low
  }

  function PageError(pdr: u16, va: u16, write: bool): u16 {
    AcfViolation(AccessControl(pdr), write) + if OutsideLength(pdr, va) then MMR0_PL else 0
  }

  function Translate(m: Mapping, va: u16, write: bool, mode: nat, dspace: bool): Translation
    requires WellFormed(m) && mode < 4
  {
    if Enabled(m.mmr0) then
      var idx := PageIndex(m.mmr3, va, mode, dspace);
      var err := PageError(m.pdr[idx], va, write);
      if err != 0 then Violation(err, idx) else Physical(Relocated(m.mmr3, m.par[idx], va))
    else Physical(if va >= 0xE000 then 0x3F_0000 + va else va)
  }

  // ---- the accessed and written flags ------------------------------------------------------------------

  function SetAccessed(pdr: u16): u16 {
    if pdr / 128 % 2 == 1 then pdr else pdr + 128
  }

  function SetWritten(pdr: u16): u16 {
    if pdr / 64 % 2 == 1 then pdr else pdr + 64
  }

  function Marked(pdr: u16, write: bool): u16 {
    if write then SetWritten(SetAccessed(pdr)) else SetAccessed(pdr)
  }

  /** The mapping registers after an access through page idx. */
  function MarkPage(m: Mapping, idx: nat, write: bool): (m': Mapping)
    requires WellFormed(m) && idx < 64
    ensures WellFormed(m')
  {
    m.(pdr := m.pdr[idx := Marked(m.pdr[idx], write)])
  }

  lemma AccessedKeepsFields(pdr: u16)
    ensures AccessControl(SetAccessed(pdr)) == AccessControl(pdr)
    ensures Downward(SetAccessed(pdr)) == Downward(pdr) && PageLength(SetAccessed(pdr)) == PageLength(pdr)
  {
    if pdr / 128 % 2 == 0 {
      FlagAt128(pdr);
    }
  }

  lemma FlagAt128(pdr: u16)
    requires pdr / 128 % 2 == 0
    ensures (pdr + 128) % 8 == pdr % 8 && (pdr + 128) / 8 % 2 == pdr / 8 % 2 && (pdr + 128) / 256 == pdr / 256
  {
    LowFields(pdr / 64, pdr % 64, pdr);
    LowFields(pdr / 64 + 2, pdr % 64, pdr + 128);
  }

  /** The fields of a descriptor below and above bits 6 and 7. */
  lemma LowFields(q: nat, m: nat, w: nat)
    requires m < 64 && w == q * 64 + m
    ensures w % 8 == m % 8 && w / 8 % 2 == m / 8 % 2 && w / 256 == q / 4 && w / 128 == q / 2
  {
    ModUnique(w, 8, q * 8 + m / 8, m % 8);
    ModUnique(q * 8 + m / 8, 2, q * 4 + m / 8 / 2, m / 8 % 2);
    DivUnique(w, 256, q / 4);
    DivUnique(w, 128, q / 2);
  }

  lemma WrittenKeepsFields(pdr: u16)
    ensures AccessControl(SetWritten(pdr)) == AccessControl(pdr)
    ensures Downward(SetWritten(pdr)) == Downward(pdr) && PageLength(SetWritten(pdr)) == PageLength(pdr)
  {
    if pdr / 64 % 2 == 0 {
      FlagAt64(pdr);
    }
  }

  lemma FlagAt64(pdr: u16)
    requires pdr / 64 % 2 == 0
    ensures (pdr + 64) % 8 == pdr % 8 && (pdr + 64) / 8 % 2 == pdr / 8 % 2 && (pdr + 64) / 256 == pdr / 256
  {
    LowFields(pdr / 64, pdr % 64, pdr);
    LowFields(pdr / 64 + 1, pdr % 64, pdr + 64);
  }

  lemma MarkedKeepsFields(pdr: u16, write: bool)
    ensures AccessControl(Marked(pdr, write)) == AccessControl(pdr)
    ensures Downward(Marked(pdr, write)) == Downward(pdr) && PageLength(Marked(pdr, write)) == PageLength(pdr)
  {
    AccessedKeepsFields(pdr);
    WrittenKeepsFields(SetAccessed(pdr));
    hide SetAccessed, SetWritten, AccessControl, Downward, PageLength;
  }

  predicate Accessed(pdr: u16) { pdr / 128 % 2 == 1 }

  predicate Written(pdr: u16) { pdr / 64 % 2 == 1 }

  /** An access marks its page as accessed and, if it is a write, as written; the flag bits are 7 and 6, and no other
      bit of the descriptor moves. */
  lemma MarkedFlags(pdr: u16, write: bool)
    ensures var r := Marked(pdr, write);
            Accessed(r) && Written(r) == (Written(pdr) || write) && r % 64 == pdr % 64 && r / 256 == pdr / 256
  {
    var h, a, w, l := pdr / 256, pdr / 128 % 2, pdr / 64 % 2, pdr % 64;
    FlagBits(pdr);
    AccessedIs(h, a, w, l);
    WrittenIs(h, 1, w, l);
    FlagsOf(h, 1, w, l);
    FlagsOf(h, 1, 1, l);
    hide SetAccessed, SetWritten;
  }

  lemma AccessedIs(h: nat, a: nat, w: nat, l: nat)
    requires h < 256 && a < 2 && w < 2 && l < 64
    ensures SetAccessed(h * 256 + a * 128 + w * 64 + l) == h * 256 + 128 + w * 64 + l
  {
    FlagsOf(h, a, w, l);
  }

  lemma WrittenIs(h: nat, a: nat, w: nat, l: nat)
    requires h < 256 && a < 2 && w < 2 && l < 64
    ensures SetWritten(h * 256 + a * 128 + w * 64 + l) == h * 256 + a * 128 + 64 + l
  {
    FlagsOf(h, a, w, l);
  }

  lemma FlagBits(pdr: u16)
    ensures pdr == pdr / 256 * 256 + pdr / 128 % 2 * 128 + pdr / 64 % 2 * 64 + pdr % 64
  {
    Stage(pdr, 64, 2);
    Stage(pdr, 128, 2);
    assert pdr == pdr / 64 * 64 + pdr % 64;
  }

  lemma Stage(n: nat, d: nat, k: nat)
    requires d > 0 && k > 0
    ensures d * k > 0 && n / d == n / (d * k) * k + n / d % k
  {
    DivDiv(n, d, k);
    assert n / d == n / d / k * k + n / d % k;
  }

  /** A page descriptor: length in bits 14:8, the flags in 7 and 6, direction in 3, access control in 2:0. */
  lemma DescriptorFields(pdr: u16)
    ensures pdr == pdr / 0x8000 * 0x8000 + PageLength(pdr) * 0x100 + (if Accessed(pdr) then 0x80 else 0)
                   + (if Written(pdr) then 0x40 else 0) + pdr / 16 % 4 * 16 + (if Downward(pdr) then 8 else 0)
                   + AccessControl(pdr)
  {
    FlagBits(pdr);
    Stage(pdr, 8, 2);
    Stage(pdr, 16, 4);
    Stage(pdr, 256, 128);
    assert pdr == pdr / 64 * 64 + pdr % 64 == pdr / 8 * 8 + pdr % 8;
  }

  lemma FlagsOf(h: nat, a: nat, w: nat, l: nat)
    requires a < 2 && w < 2 && l < 64
    ensures var p := h * 256 + a * 128 + w * 64 + l;
            p / 256 == h && p / 128 % 2 == a && p / 64 % 2 == w && p % 64 == l
  {
    var p := h * 256 + a * 128 + w * 64 + l;
    ModUnique(p, 64, h * 4 + a * 2 + w, l);
    ModUnique(h * 4 + a * 2 + w, 2, h * 2 + a, w);
    DivUnique(p, 128, h * 2 + a);
    ModUnique(h * 2 + a, 2, h, a);
    DivUnique(p, 256, h);
  }

  /** Accesses set flags in page descriptors, but no access ever changes what any address translates to, in
      any mode, space or direction. */
  lemma FlagsNeverTranslate(m: Mapping, idx: nat, marked: bool, va: u16, write: bool, mode: nat, dspace: bool)
    requires WellFormed(m) && idx < 64 && mode < 4
    ensures Translate(MarkPage(m, idx, marked), va, write, mode, dspace) == Translate(m, va, write, mode, dspace)
  {
    MarkedKeepsFields(m.pdr[idx], marked);
    hide Marked, AccessControl, Downward, PageLength, Relocated;
  }

  /** What may be written may be read, at the same place. */
  lemma WritableIsReadable(m: Mapping, va: u16, mode: nat, dspace: bool)
    requires WellFormed(m) && mode < 4 && Translate(m, va, true, mode, dspace).Physical?
    ensures Translate(m, va, false, mode, dspace) == Translate(m, va, true, mode, dspace)
  {
    hide AccessControl, OutsideLength, Relocated;
  }

  /** A mapped access succeeds exactly when the access-control field permits it and its block lies in the
      window the length and direction fields describe: field values 4 to 6 permit a write, 1 and 2 as well a read. */
  lemma WindowIff(m: Mapping, va: u16, write: bool, mode: nat, dspace: bool)
    requires WellFormed(m) && mode < 4 && Enabled(m.mmr0)
    ensures var pdr := m.pdr[PageIndex(m.mmr3, va, mode, dspace)];
            Translate(m, va, write, mode, dspace).Physical? <==>
              && (if write then AccessControl(pdr) in {4, 5, 6} else AccessControl(pdr) in {1, 2, 4, 5, 6})
              && (if Downward(pdr) then PageLength(pdr) <= BlockNumber(va) else BlockNumber(va) <= PageLength(pdr))
  {
    hide AccessControl, Downward, PageLength, BlockNumber, Relocated;
  }

  /** A refused access raises the error bits that say why: not resident, length, read only. */
  lemma ViolationBits(m: Mapping, va: u16, write: bool, mode: nat, dspace: bool)
    requires WellFormed(m) && mode < 4 && Translate(m, va, write, mode, dspace).Violation?
    ensures var t := Translate(m, va, write, mode, dspace);
            var pdr := m.pdr[PageIndex(m.mmr3, va, mode, dspace)];
            && t.idx == PageIndex(m.mmr3, va, mode, dspace) && t.err % 0x2000 == 0
            && (t.err / 0x8000 == 1 <==> AccessControl(pdr) in (if write then {0, 1, 3, 7} else {0, 3, 7}))
            && (t.err / 0x4000 % 2 == 1 <==> OutsideLength(pdr, va))
            && (t.err / 0x2000 % 2 == 1 <==> write && AccessControl(pdr) == 2)
  {
    hide PageIndex, OutsideLength, Relocated;
  }

  /** The offsets a page reaches lie in its window: at most (length + 1) blocks up from its base, or from the
      length field's block up to the top of the 8 KB page. Under 22-bit relocation the page is contiguous. */
  lemma WindowBytes(m: Mapping, va: u16, write: bool, mode: nat, dspace: bool)
    requires WellFormed(m) && mode < 4 && Enabled(m.mmr0)
    requires Translate(m, va, write, mode, dspace).Physical?
    ensures var idx := PageIndex(m.mmr3, va, mode, dspace);
            var off := va % 0x2000;
            && (if Downward(m.pdr[idx]) then PageLength(m.pdr[idx]) * 64 <= off < 0x2000
                else off < (PageLength(m.pdr[idx]) + 1) * 64)
            && (m.mmr3 / 16 % 2 == 1 ==>
                Translate(m, va, write, mode, dspace).pa == (m.par[idx] * 64 + off) % PA_LIMIT)
  {
    WindowIff(m, va, write, mode, dspace);
    BlockOfOffset(va);
    hide AccessControl, Downward, PageLength, AcfViolation, OutsideLength, BlockNumber;
  }

  // ---- where an access lands ---------------------------------------------------------------------------------------

  const LOW_18: nat := 0x4_0000

  /** A page's base, in blocks of 64 bytes, and the offset in the page. */
  function Sum(m: Mapping, va: u16, mode: nat, dspace: bool): nat
    requires WellFormed(m) && mode < 4
  {
    m.par[PageIndex(m.mmr3, va, mode, dspace)] * 64 + va % 0x2000
  }

  /** The physical address in each of the three regimes. With management off it is the address itself, but for the top
      8 KB, which are the top 8 KB of physical memory. With 22-bit relocation it is base plus offset. With 18 bits it
      is the sum modulo 2^18, from octal 760000 on moved to the top of the 22-bit range. */
  lemma Regimes(m: Mapping, va: u16, write: bool, mode: nat, dspace: bool)
    requires WellFormed(m) && mode < 4 && Translate(m, va, write, mode, dspace).Physical?
    ensures var pa, x := Translate(m, va, write, mode, dspace).pa, Sum(m, va, mode, dspace) % LOW_18;
            if !Enabled(m.mmr0) then pa == if va < 0xE000 then va else 0x3F_E000 + (va - 0xE000)
            else if m.mmr3 / 16 % 2 == 1 then pa == Sum(m, va, mode, dspace) % 0x40_0000
            else pa == if x < 0x3_E000 then x else 0x3C_0000 + x
  {
    RemainderTwice(Sum(m, va, mode, dspace));
    hide PageError, PageIndex;
  }

  lemma RemainderTwice(x: nat)
    ensures x % PA_LIMIT % LOW_18 == x % LOW_18
  {
    var q, r := x / PA_LIMIT, x % PA_LIMIT;
    assert x == q * PA_LIMIT + r;
    ModUnique(x, LOW_18, q * 16 + r / LOW_18, r % LOW_18);
  }

  /** So two accesses through one mapping share a physical address if and only if their sums agree in the bits that
      are in use: 18 or 22 of them. */
  lemma SharedIff(m: Mapping, va: u16, write: bool, mode: nat, dspace: bool, va': u16, write': bool, mode': nat,
                  dspace': bool)
    requires WellFormed(m) && mode < 4 && mode' < 4 && Enabled(m.mmr0)
    requires Translate(m, va, write, mode, dspace).Physical? && Translate(m, va', write', mode', dspace').Physical?
    ensures Translate(m, va, write, mode, dspace) == Translate(m, va', write', mode', dspace') <==>
            var n := if m.mmr3 / 16 % 2 == 1 then PA_LIMIT else LOW_18;
            Sum(m, va, mode, dspace) % n == Sum(m, va', mode', dspace') % n
  {
    Regimes(m, va, write, mode, dspace);
    Regimes(m, va', write', mode', dspace');
    hide Translate, Sum;
  }

  /** Accesses go through one page register if and only if they are of one mode, in one space - data space counting as
      instruction space while it is off - and in the same eighth of the address space. */
  lemma PagesApart(mmr3: u16, va: u16, mode: nat, dspace: bool, va': u16, mode': nat, dspace': bool)
    requires mode < 4 && mode' < 4
    ensures PageIndex(mmr3, va, mode, dspace) == PageIndex(mmr3, va', mode', dspace') <==>
            && mode == mode' && va / 0x2000 == va' / 0x2000
            && (dspace && DataSpaceOn(mmr3, mode) <==> dspace' && DataSpaceOn(mmr3, mode))
  {
    hide DataSpaceOn;
    var d := if dspace && DataSpaceOn(mmr3, mode) then 1 else 0;
    var d' := if dspace' && DataSpaceOn(mmr3, mode') then 1 else 0;
    ModUnique(PageIndex(mmr3, va, mode, dspace), 8, mode * 2 + d, va / 0x2000);
    ModUnique(PageIndex(mmr3, va', mode', dspace'), 8, mode' * 2 + d', va' / 0x2000);
  }

  lemma BlockOfOffset(va: u16)
    ensures BlockNumber(va) * 64 <= va % 0x2000 < (BlockNumber(va) + 1) * 64 && BlockNumber(va) < 128
  {
    var off := va % 0x2000;
    assert va == va / 0x2000 * 0x2000 + off;
    assert va / 64 == va / 0x2000 * 128 + off / 64;
    assert BlockNumber(va) == off / 64;
  }

  // ---- what an access does to the mapping, and where it lands ---------------------------------------------

  /** The first fault is captured in MMR0 (page number in bits 6:1, error in 15:13); later ones are not. */
  function Captured(m: Mapping, err: u16, idx: nat): Mapping
    requires WellFormed(m) && err <= 0xC000 && idx < 64
  {
    if Frozen(m.mmr0) then m else m.(mmr0 := m.mmr0 - m.mmr0 / 2 % 64 * 2 + idx * 2 + err)
  }

  function AfterAccess(m: Mapping, va: u16, write: bool, mode: nat, dspace: bool): (m': Mapping)
    requires WellFormed(m) && mode < 4
    ensures WellFormed(m') && m'.mmr3 == m.mmr3 && m'.par == m.par
    ensures Translate(m, va, write, mode, dspace).Physical? ==> m'.mmr0 == m.mmr0
  {
    if !Enabled(m.mmr0) then m
    else
      var t := Translate(m, va, write, mode, dspace);
      if t.Physical? then MarkPage(m, PageIndex(m.mmr3, va, mode, dspace), write) else Captured(m, t.err, t.idx)
  }

  /** A refused access is captured: the page's number in bits 6:1, the error in 15:13, every other bit kept. */
  lemma FaultCaptured(m: Mapping, va: u16, write: bool, mode: nat, dspace: bool)
    requires WellFormed(m) && mode < 4 && Translate(m, va, write, mode, dspace).Violation? && !Frozen(m.mmr0)
    ensures var t, w := Translate(m, va, write, mode, dspace), AfterAccess(m, va, write, mode, dspace).mmr0;
            && Frozen(w) && w / 2 % 64 == t.idx && w / 0x2000 == t.err / 0x2000
            && w % 2 == m.mmr0 % 2 && w / 0x80 % 0x40 == m.mmr0 / 0x80
  {
    var t := Translate(m, va, write, mode, dspace);
    ViolationBits(m, va, write, mode, dspace);
    assert t.err > 0;
    CaptureFields(m.mmr0, t.idx, t.err);
    hide Translate, PageIndex;
  }

  lemma CaptureFields(mmr0: nat, idx: nat, err: nat)
    requires mmr0 < 0x2000 && idx < 64 && err % 0x2000 == 0
    ensures var w := mmr0 - mmr0 / 2 % 64 * 2 + idx * 2 + err;
            && w / 2 % 64 == idx && w / 0x2000 == err / 0x2000 && w % 2 == mmr0 % 2 && w / 0x80 % 0x40 == mmr0 / 0x80
  {
    var h, l, k := mmr0 / 0x80, mmr0 % 2, err / 0x2000;
    Stage(mmr0, 2, 64);
    assert mmr0 == mmr0 / 2 * 2 + l && err == k * 0x2000;
    var w := mmr0 - mmr0 / 2 % 64 * 2 + idx * 2 + err;
    assert w == k * 0x2000 + h * 0x80 + idx * 2 + l;
    ModUnique(w, 2, k * 0x1000 + h * 64 + idx, l);
    ModUnique(k * 0x1000 + h * 64 + idx, 64, k * 64 + h, idx);
    DivUnique(w, 0x80, k * 64 + h);
    ModUnique(k * 64 + h, 64, k, h);
    DivUnique(w, 0x2000, k);
  }

  datatype Asked = Asked(va: u16, write: bool, mode: nat, dspace: bool)

  type Request = q: Asked | q.mode < 4 witness Asked(0, false, 0, false)

  predicate Refused(m: Mapping, q: Request)
    requires WellFormed(m)
  {
    Translate(m, q.va, q.write, q.mode, q.dspace).Violation?
  }

  function After(m: Mapping, q: Request): (m': Mapping)
    requires WellFormed(m)
    ensures WellFormed(m')
  {
    AfterAccess(m, q.va, q.write, q.mode, q.dspace)
  }

  /** The mapping after any number of accesses, and the first refused one among them. */
  function AfterAll(m: Mapping, qs: seq<Request>): (m': Mapping)
    requires WellFormed(m)
    ensures WellFormed(m')
    decreases |qs|
  {
    if qs == [] then m else AfterAll(After(m, qs[0]), qs[1..])
  }

  function FirstRefused(m: Mapping, qs: seq<Request>): (i: nat)
    requires WellFormed(m)
    ensures i <= |qs| && (i < |qs| ==> Refused(m, qs[i])) && forall j :: 0 <= j < i ==> !Refused(m, qs[j])
    decreases |qs|
  {
    if qs == [] || Refused(m, qs[0]) then 0 else FirstRefused(m, qs[1..]) + 1
  }

  /** Over any run of accesses MMR0 records the first refusal, as if nothing else had happened, and later ones never. */
  lemma {:induction false} FirstFaultStands(m: Mapping, qs: seq<Request>)
    requires WellFormed(m)
    ensures var i := FirstRefused(m, qs);
            AfterAll(m, qs).mmr0 == if Frozen(m.mmr0) || i == |qs| then m.mmr0 else After(m, qs[i]).mmr0
    decreases |qs|
  {
    if qs != [] {
      var q, rest := qs[0], qs[1..];
      FirstFaultStands(After(m, q), rest);
      Kept(m, q);
      if !Refused(m, q) {
        SameRefusals(m, q, rest);
      }
      hide Refused, After, Frozen;
    }
  }

  /** A frozen MMR0 stays as it is; a completed access leaves it, and a refused one freezes it. */
  lemma Kept(m: Mapping, q: Request)
    requires WellFormed(m)
    ensures Frozen(m.mmr0) || !Refused(m, q) ==> After(m, q).mmr0 == m.mmr0
    ensures !Frozen(m.mmr0) && Refused(m, q) ==> Frozen(After(m, q).mmr0)
  {
    if !Frozen(m.mmr0) && Refused(m, q) {
      FaultCaptured(m, q.va, q.write, q.mode, q.dspace);
    }
    hide Translate, PageIndex, MarkPage, Frozen;
  }

  /** After a completed access, what was refused is refused, and captured alike. */
  lemma {:induction false} SameRefusals(m: Mapping, q: Request, qs: seq<Request>)
    requires WellFormed(m) && !Refused(m, q)
    ensures var m', i := After(m, q), FirstRefused(m, qs);
            FirstRefused(m', qs) == i && (i < |qs| ==> After(m', qs[i]).mmr0 == After(m, qs[i]).mmr0)
    decreases |qs|
  {
    if qs != [] {
      SameRefusal(m, q, qs[0]);
      SameRefusals(m, q, qs[1..]);
      hide Refused, After;
    }
  }

  lemma SameRefusal(m: Mapping, q: Request, p: Request)
    requires WellFormed(m) && !Refused(m, q)
    ensures Refused(After(m, q), p) == Refused(m, p)
    ensures Refused(m, p) ==> After(After(m, q), p).mmr0 == After(m, p).mmr0
  {
    AccessKeepsTranslations(m, q.va, q.write, q.mode, q.dspace, p.va, p.write, p.mode, p.dspace);
    hide Translate, PageIndex, MarkPage;
  }

  /** A completed access, of either direction, leaves every translation as it was. */
  lemma AccessKeepsTranslations(m: Mapping, va: u16, write: bool, mode: nat, dspace: bool,
                                va': u16, write': bool, mode': nat, dspace': bool)
    requires WellFormed(m) && mode < 4 && mode' < 4 && Translate(m, va, write, mode, dspace).Physical?
    ensures Translate(AfterAccess(m, va, write, mode, dspace), va', write', mode', dspace') ==
            Translate(m, va', write', mode', dspace')
  {
    if Enabled(m.mmr0) {
      FlagsNeverTranslate(m, PageIndex(m.mmr3, va, mode, dspace), write, va', write', mode', dspace');
      hide *;
      FoldAfterAccess(m, va, write, mode, dspace);
    }
  }

  lemma FoldAfterAccess(m: Mapping, va: u16, write: bool, mode: nat, dspace: bool)
    requires WellFormed(m) && mode < 4 && Enabled(m.mmr0) && Translate(m, va, write, mode, dspace).Physical?
    ensures AfterAccess(m, va, write, mode, dspace) == MarkPage(m, PageIndex(m.mmr3, va, mode, dspace), write)
  {
    hide Translate, PageIndex, MarkPage;
  }

  const VEC_BUS: u16 := 0x4
  const VEC_MME: u16 := 0xA8

  /** Installed memory, the I/O page, or a fault through a vector. */
  datatype Place = Ram(pa: nat) | Io(pa: nat) | Fault(vec: u16)

  function Locate(m: Mapping, memTop: nat, va: u16, write: bool, mode: nat, dspace: bool): (p: Place)
    requires WellFormed(m) && mode < 4
    ensures p.Ram? ==> p.pa < IOPAGE_TOP
  {
    match Translate(m, va, write, mode, dspace)
    case Violation(_, _) => Fault(VEC_MME)
    case Physical(pa) => if pa >= IOPAGE_TOP then Io(pa) else if pa >= memTop then Fault(VEC_BUS) else Ram(pa)
  }

  /** A word access faults at an odd address before it is translated. */
  function LocateWord(m: Mapping, memTop: nat, va: u16, write: bool, mode: nat, dspace: bool): (p: Place)
    requires WellFormed(m) && mode < 4
    ensures p.Ram? ==> p.pa < IOPAGE_TOP
  {
    if va % 2 == 1 then Fault(VEC_BUS) else Locate(m, memTop, va, write, mode, dspace)
  }

  /** Physical addresses from octal 17760000 on are the I/O page, and below it those that are installed are memory; the
      vectors are octal 250 for memory management and 4 for an odd or absent address. */
  lemma PlaceIff(m: Mapping, memTop: nat, va: u16, write: bool, mode: nat, dspace: bool)
    requires WellFormed(m) && mode < 4
    ensures var t, p := Translate(m, va, write, mode, dspace), Locate(m, memTop, va, write, mode, dspace);
            && (t.Violation? <==> p == Fault(168))
            && (t.Physical? && t.pa >= 0x3F_E000 <==> p.Io?) && (p.Io? ==> p.pa == t.pa)
            && (t.Physical? && t.pa < 0x3F_E000 && t.pa < memTop <==> p.Ram?) && (p.Ram? ==> p.pa == t.pa)
            && (t.Physical? && memTop <= t.pa < 0x3F_E000 <==> p == Fault(4))
    ensures LocateWord(m, memTop, va, write, mode, dspace) ==
            if va % 2 == 1 then Fault(4) else Locate(m, memTop, va, write, mode, dspace)
  {
    hide Translate;
  }

  function AfterWordAccess(m: Mapping, va: u16, write: bool, mode: nat, dspace: bool): (m': Mapping)
    requires WellFormed(m) && mode < 4
    ensures WellFormed(m')
  {
    if va % 2 == 1 then m else AfterAccess(m, va, write, mode, dspace)
  }

  // ---- the part of the mapping that translation depends on ------------------------------------------------

  datatype Page = Page(acf: nat, downward: bool, length: nat)

  datatype Layout = Layout(enabled: bool, mmr3: u16, par: seq<u16>, pages: seq<Page>)

  function PageOf(pdr: u16): Page {
    Page(AccessControl(pdr), Downward(pdr), PageLength(pdr))
  }

  function LayoutOf(m: Mapping): (l: Layout)
    requires WellFormed(m)
    ensures |l.pages| == 64 && forall i :: 0 <= i < 64 ==> l.pages[i] == PageOf(m.pdr[i])
  {
    Layout(Enabled(m.mmr0), m.mmr3, m.par, seq(64, i requires 0 <= i < 64 => PageOf(m.pdr[i])))
  }

  /** Mappings with one layout place every access alike. */
  lemma LayoutDecides(m: Mapping, m': Mapping, memTop: nat, va: u16, write: bool, mode: nat, dspace: bool)
    requires WellFormed(m) && WellFormed(m') && mode < 4 && LayoutOf(m) == LayoutOf(m')
    ensures Locate(m, memTop, va, write, mode, dspace) == Locate(m', memTop, va, write, mode, dspace)
    ensures LocateWord(m, memTop, va, write, mode, dspace) == LocateWord(m', memTop, va, write, mode, dspace)
  {
    if Enabled(m.mmr0) {
      var idx := PageIndex(m.mmr3, va, mode, dspace);
      assert LayoutOf(m).pages[idx] == LayoutOf(m').pages[idx];
      assert PageOf(m.pdr[idx]) == PageOf(m'.pdr[idx]);
    }
    hide LayoutOf, AccessControl, Downward, PageLength, AcfViolation, BlockNumber, Relocated, PageIndex;
  }

  /** An access never changes the layout: completed, it sets flags; refused, it only records the fault. */
  lemma AccessKeepsLayout(m: Mapping, va: u16, write: bool, mode: nat, dspace: bool)
    requires WellFormed(m) && mode < 4
    ensures LayoutOf(AfterAccess(m, va, write, mode, dspace)) == LayoutOf(m)
  {
    if Enabled(m.mmr0) {
      var idx := PageIndex(m.mmr3, va, mode, dspace);
      if Translate(m, va, write, mode, dspace).Physical? {
        FoldAfterAccess(m, va, write, mode, dspace);
        MarkKeepsLayout(m, idx, write);
      } else {
        CaptureKeepsLayout(m, PageError(m.pdr[idx], va, write), idx);
      }
      hide LayoutOf, MarkPage, Marked, Captured, AccessControl, Downward, PageLength, PageIndex;
    }
  }

  lemma MarkKeepsLayout(m: Mapping, idx: nat, write: bool)
    requires WellFormed(m) && idx < 64
    ensures LayoutOf(MarkPage(m, idx, write)) == LayoutOf(m)
  {
    MarkedKeepsFields(m.pdr[idx], write);
    hide Marked, AccessControl, Downward, PageLength;
    assert LayoutOf(MarkPage(m, idx, write)).pages == LayoutOf(m).pages;
  }

  lemma CaptureKeepsLayout(m: Mapping, err: u16, idx: nat)
    requires WellFormed(m) && err <= 0xC000 && err % 2 == 0 && idx < 64
    ensures LayoutOf(Captured(m, err, idx)) == LayoutOf(m)
  {
    hide AccessControl, Downward, PageLength;
    assert LayoutOf(Captured(m, err, idx)).pages == LayoutOf(m).pages;
  }
}
