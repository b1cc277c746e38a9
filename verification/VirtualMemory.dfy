/** Loads and stores through memory management obey read-over-write. */
module VirtualMemory {
  import opened Arith
  import opened Words
  import opened Kt11
  import opened Memory
  import opened Psw
  import opened Cpu

  /** A word access names its mode and space; a byte access is in the current mode's data space. */
  datatype Access = Word(va: u16, mode: nat, dspace: bool) | Byte(va: u16)

  predicate IsAccess(a: Access) { a.Word? ==> a.mode < 4 }

  function PlaceOf(m: Mapping, memTop: nat, psw: u16, a: Access, write: bool): Place
    requires WellFormed(m) && IsAccess(a)
  {
    match a
    case Word(va, mode, dspace) => LocateWord(m, memTop, va, write, mode, dspace)
    case Byte(va) => Locate(m, memTop, va, write, Mode(psw), true)
  }

  function AfterAny(m: Mapping, psw: u16, a: Access, write: bool): (m': Mapping)
    requires WellFormed(m) && IsAccess(a)
    ensures WellFormed(m')
  {
    match a
    case Word(va, mode, dspace) => AfterWordAccess(m, va, write, mode, dspace)
    case Byte(va) => AfterAccess(m, va, write, Mode(psw), true)
  }

  /** After an access that reached memory, every other access lands where it would have before. */
  lemma PlacesStand(m: Mapping, memTop: nat, psw: u16, a: Access, write: bool, b: Access, write': bool)
    requires WellFormed(m) && IsAccess(a) && IsAccess(b) && PlaceOf(m, memTop, psw, a, write).Ram?
    ensures PlaceOf(AfterAny(m, psw, a, write), memTop, psw, b, write') == PlaceOf(m, memTop, psw, b, write')
  {
    var mode := if a.Word? then a.mode else Mode(psw);
    var dspace := a.Word? ==> a.dspace;
    var mode' := if b.Word? then b.mode else Mode(psw);
    var dspace' := b.Word? ==> b.dspace;
    LocateStands(m, memTop, a.va, write, mode, dspace, b.va, write', mode', dspace');
    hide Locate, AfterAccess, Mode;
  }

  lemma LocateStands(m: Mapping, memTop: nat, va: u16, write: bool, mode: nat, dspace: bool,
                     va': u16, write': bool, mode': nat, dspace': bool)
    requires WellFormed(m) && mode < 4 && mode' < 4 && Locate(m, memTop, va, write, mode, dspace).Ram?
    ensures var m' := AfterAccess(m, va, write, mode, dspace);
            Locate(m', memTop, va', write', mode', dspace') == Locate(m, memTop, va', write', mode', dspace')
  {
    AccessKeepsTranslations(m, va, write, mode, dspace, va', write', mode', dspace');
    hide Translate, AfterAccess;
  }

  /** Relocation moves memory by multiples of 64 bytes, so an access keeps its place within a block. */
  lemma PlacesKeepOffset(m: Mapping, memTop: nat, va: u16, write: bool, mode: nat, dspace: bool)
    requires WellFormed(m) && mode < 4 && Locate(m, memTop, va, write, mode, dspace).Ram?
    ensures Locate(m, memTop, va, write, mode, dspace).pa % 64 == va % 64
  {
    if Enabled(m.mmr0) {
      RelocationKeepsOffset(m.mmr3, m.par[PageIndex(m.mmr3, va, mode, dspace)], va);
    }
    hide PageError, Relocated, PageIndex;
  }

  lemma RelocationKeepsOffset(mmr3: u16, par: u16, va: u16)
    ensures Relocated(mmr3, par, va) % 64 == va % 64
  {
    var x := va % 0x2000 + par * 64;
    var pa := x % PA_LIMIT;
    SameOffset(va, va % 0x2000, va / 0x2000 * 0x80);
    SameOffset(x, va % 0x2000, par);
    SameOffset(x, pa, x / PA_LIMIT * 0x1_0000);
    SameOffset(pa, pa % 0x4_0000, pa / 0x4_0000 * 0x1000);
    SameOffset(0x3C_0000 + pa % 0x4_0000, pa % 0x4_0000, 0xF000);
  }

  lemma SameOffset(x: nat, y: nat, blocks: nat)
    requires x == y + blocks * 64
    ensures x % 64 == y % 64
  {
    ModUnique(x, 64, y / 64 + blocks, y % 64);
  }

  /** A word access that reaches memory reaches an even address. */
  lemma WordsAreAligned(m: Mapping, memTop: nat, va: u16, write: bool, mode: nat, dspace: bool)
    requires WellFormed(m) && mode < 4 && LocateWord(m, memTop, va, write, mode, dspace).Ram?
    ensures LocateWord(m, memTop, va, write, mode, dspace).pa % 2 == 0
  {
    PlacesKeepOffset(m, memTop, va, write, mode, dspace);
    hide Locate;
    OffsetIsEven(va);
    OffsetIsEven(LocateWord(m, memTop, va, write, mode, dspace).pa);
  }

  lemma OffsetIsEven(x: nat)
    ensures x % 2 == x % 64 % 2
  {
    ModUnique(x, 2, x / 64 * 32 + x % 64 / 2, x % 64 % 2);
  }

  /** Neighbouring words never share a cell, even when they lie on different pages. */
  lemma NeighboursApart(m: Mapping, memTop: nat, va: u16, write: bool, mode: nat, dspace: bool)
    requires WellFormed(m) && mode < 4
    requires LocateWord(m, memTop, va, write, mode, dspace).Ram?
    requires LocateWord(m, memTop, Plus(va, -2), write, mode, dspace).Ram?
    ensures LocateWord(m, memTop, va, write, mode, dspace).pa !=
            LocateWord(m, memTop, Plus(va, -2), write, mode, dspace).pa
  {
    PlacesKeepOffset(m, memTop, va, write, mode, dspace);
    PlacesKeepOffset(m, memTop, Plus(va, -2), write, mode, dspace);
    hide Locate;
    OffsetsDiffer(va);
  }

  lemma OffsetsDiffer(va: u16)
    ensures Plus(va, -2) % 64 != va % 64
  {
    var low := va % 64;
    Wrap(va - 2, 0x1_0000);
    ModUnique(Plus(va, -2), 64, if va < 2 then 0x3FF else if low < 2 then va / 64 - 1 else va / 64,
              if low < 2 then low + 62 else low - 2);
  }

  /** What an address holds after a store. */
  function Seen(ram: seq<u16>, pa: nat, byte: bool, value: u16, at: nat): (b: nat)
    requires IsRam(ram) && at < PA_LIMIT
    ensures b < 256
  {
    if at == pa then value % 256 else if !byte && at == pa + 1 then value / 256 else ByteAt(ram, at)
  }

  /** A load after a store sees, byte by byte, the new data where the store covered it and the old elsewhere. */
  lemma LoadAfterStore(ram: seq<u16>, pa: nat, byte: bool, value: u16, at: nat, byte': bool)
    requires IsRam(ram) && pa < PA_LIMIT && at < PA_LIMIT && (byte || pa % 2 == 0) && (byte' || at % 2 == 0)
    ensures Loaded(Stored(ram, pa, byte, value), at, byte') ==
            if byte' then Seen(ram, pa, byte, value, at)
            else Seen(ram, pa, byte, value, at) + Seen(ram, pa, byte, value, at + 1) * 256
  {
    var ram' := Stored(ram, pa, byte, value);
    StoreReplacesBytes(ram, pa, byte, value, at);
    if !byte' {
      StoreReplacesBytes(ram, pa, byte, value, at + 1);
      WordIsTwoBytes(ram', at);
    }
    hide Stored, ByteAt;
  }

  method Store(cpu: Cpu, a: Access, value: u16) returns (o: Outcome<()>)
    requires cpu.Valid() && IsAccess(a)
    modifies cpu, cpu.mem
    ensures cpu.Valid()
    ensures var p := PlaceOf(old(cpu.kt), cpu.memTop, old(cpu.psw), a, true);
            && (p.Ram? ==> && o.Done? && cpu.Core() == old(cpu.Core())
                           && cpu.kt == AfterAny(old(cpu.kt), cpu.psw, a, true)
                           && cpu.mem[..] == Stored(old(cpu.mem[..]), p.pa, a.Byte?, value))
            && (p.Fault? ==> o == Abort(p.vec) && cpu.mem[..] == old(cpu.mem[..]))
  {
    match a
    case Word(va, mode, dspace) => o := cpu.WriteWordMode(va, mode, dspace, value);
    case Byte(va) => o := cpu.WriteByteAt(va, value % 256);
  }

  method Load(cpu: Cpu, a: Access) returns (o: Outcome<u16>)
    requires cpu.Valid() && IsAccess(a)
    modifies cpu`kt
    ensures cpu.Valid() && cpu.kt == AfterAny(old(cpu.kt), cpu.psw, a, false)
    ensures var p := PlaceOf(old(cpu.kt), cpu.memTop, cpu.psw, a, false);
            && (p.Ram? ==> o == Done(Loaded(cpu.mem[..], p.pa, a.Byte?)))
            && (p.Fault? ==> o == Abort(p.vec))
  {
    match a
    case Word(va, mode, dspace) => o := cpu.ReadWordGen(va, mode, dspace);
    case Byte(va) => o := cpu.ReadByteAt(va);
  }

  /** Virtual memory obeys read-over-write: whatever the two modes, spaces and widths, a load after a store
      completes, and sees the new data exactly in the bytes whose physical cells the store covered. */
  method StoreThenLoad(cpu: Cpu, s: Access, value: u16, l: Access) returns (o: Outcome<u16>)
    requires cpu.Valid() && IsAccess(s) && IsAccess(l)
    requires PlaceOf(cpu.kt, cpu.memTop, cpu.psw, s, true).Ram?
    requires PlaceOf(cpu.kt, cpu.memTop, cpu.psw, l, false).Ram?
    modifies cpu, cpu.mem
    ensures cpu.Valid() && cpu.Core() == old(cpu.Core())
    ensures var p := PlaceOf(old(cpu.kt), cpu.memTop, cpu.psw, s, true).pa;
            var at := PlaceOf(old(cpu.kt), cpu.memTop, cpu.psw, l, false).pa;
            var ram := old(cpu.mem[..]);
            o == Done(if l.Byte? then Seen(ram, p, s.Byte?, value, at)
                      else Seen(ram, p, s.Byte?, value, at) + Seen(ram, p, s.Byte?, value, at + 1) * 256)
  {
    hide Seen, Stored, Loaded, PlaceOf, AfterAny;
    StoreLoadFacts(cpu.kt, cpu.memTop, cpu.psw, cpu.mem[..], s, value, l);
    var stored := Store(cpu, s, value);
    o := Load(cpu, l);
  }

  /** Where the two accesses land, and what the second finds there. */
  lemma StoreLoadFacts(m: Mapping, memTop: nat, psw: u16, ram: seq<u16>, s: Access, value: u16, l: Access)
    requires WellFormed(m) && IsRam(ram) && IsAccess(s) && IsAccess(l)
    requires PlaceOf(m, memTop, psw, s, true).Ram? && PlaceOf(m, memTop, psw, l, false).Ram?
    ensures var p, at := PlaceOf(m, memTop, psw, s, true).pa, PlaceOf(m, memTop, psw, l, false).pa;
            && PlaceOf(AfterAny(m, psw, s, true), memTop, psw, l, false) == Ram(at)
            && p < PA_LIMIT && at < PA_LIMIT && at + 1 < PA_LIMIT
            && Loaded(Stored(ram, p, s.Byte?, value), at, l.Byte?) ==
               if l.Byte? then Seen(ram, p, s.Byte?, value, at)
               else Seen(ram, p, s.Byte?, value, at) + Seen(ram, p, s.Byte?, value, at + 1) * 256
  {
    var p, at := PlaceOf(m, memTop, psw, s, true).pa, PlaceOf(m, memTop, psw, l, false).pa;
    if s.Word? {
      WordsAreAligned(m, memTop, s.va, true, s.mode, s.dspace);
    }
    if l.Word? {
      WordsAreAligned(m, memTop, l.va, false, l.mode, l.dspace);
    }
    LoadAfterStore(ram, p, s.Byte?, value, at, l.Byte?);
    PlacesStand(m, memTop, psw, s, true, l, false);
    hide Seen, Stored, Loaded, Locate, AfterAny;
  }
}
