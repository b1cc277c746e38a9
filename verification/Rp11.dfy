/** The RH70 controller with an RP04 disk: command protocol only. The words a transfer moves are left open. */
module Rp11 {
  import opened Csr

  const BASE_NS: nat := 2_000_000
  const WORD_NS: nat := 100

  datatype Register = Cs1 | Wc | Ba | Cs2 | Bae | Da | Dc | Other

  // Functions, in bits 5:1 of the control register.
  const DCLR: bv16 := 4
  const PRESET: bv16 := 8
  const PACK: bv16 := 9
  const SEARCH: bv16 := 12
  const WCHK: bv16 := 20
  const WRITE: bv16 := 24
  const READ: bv16 := 28

  function Function(cs: bv16): bv16 { (cs >> 1) & 0x1F }

  lemma FunctionField(cs: bv16)
    ensures cs & 0x3E == Function(cs) << 1
  {
  }

  function Written(cs: bv16, value: bv16): (c: bv16)
    ensures Done(c) == Done(cs) && Enabled(c) == Enabled(value) && Function(c) == Function(value)
    ensures c & 0x7E == value & 0x7E && c & 0xFF81 == cs & 0xFF81
  {
    (cs & 0xFF81) | (value & 0x7E)
  }

  predicate ControllerClear(cs2: bv16) { cs2 & 0x20 != 0 }

  /** The words a two's-complement counter asks for: as many as bring it to zero, and zero asks for all 64 K. */
  function Words(wc: bv16): (n: nat)
    ensures 1 <= n <= 0x1_0000 && (wc as int + n) % 0x1_0000 == 0
  {
    0x1_0000 - wc as int
  }

  class Controller {
    var cs1: bv16
    var wc: bv16
    var ba: bv16
    var cs2: bv16
    var bae: bv16
    var da: bv16
    var dc: bv16
    var cc: bv16
    var ds: bv16
    var er1: bv16
    var busy: bool
    var doneNs: nat
    var pending: bool

    constructor ()
      ensures Safe() && !pending && !busy
    {
      cs1, wc, ba, cs2, bae, da, dc, cc, ds, er1 := READY, 0, 0, 0, 0, 0, 0, 0, 0, 0;
      busy, doneNs, pending := false, 0, false;
    }

    predicate Safe()
      reads this
    {
      (pending ==> Asserts(cs1)) && (busy <==> !Done(cs1))
    }

    /** The processor's grant drops the request. */
    method Acknowledge()
      requires Safe()
      modifies `pending
      ensures Safe() && !pending
    {
      pending := false;
    }

    method Reset()
      modifies `cs1, `er1, `busy, `pending
      ensures Safe() && !pending && !busy
    {
      cs1, er1, busy, pending := READY, 0, false, false;
    }

    method Finish()
      modifies `busy, `cs1, `ds, `pending
      ensures !busy && cs1 == WithDone(old(cs1)) && pending == Enabled(cs1) && ds == old(ds) | 0x8000
    {
      busy := false;
      cs1 := WithDone(cs1);
      ds := ds | 0x8000;
      pending := Enabled(cs1);
    }

    method Transfer()
      modifies `wc, `ba, `bae, `da, `dc, `cc
    {
      wc, ba, bae, da, dc, cc := *, *, *, *, *, *;
    }

    /** rp_go */
    method Start(now: nat)
      requires Done(cs1) && !busy
      modifies `cs1, `wc, `ba, `bae, `da, `dc, `cc, `ds, `er1, `busy, `doneNs, `pending
      ensures Safe() && Enabled(cs1) == Enabled(old(cs1))
      ensures busy ==> && !pending
                       && doneNs == now + BASE_NS + if Function(old(cs1)) == SEARCH then 0 else Words(old(wc)) * WORD_NS
      ensures busy <==> Function(old(cs1)) in {SEARCH, READ, WRITE, WCHK}
      ensures !busy ==> pending == Enabled(cs1)
    {
      hide Words, Function;
      var func := Function(cs1);
      cs1 := WithoutDone(cs1);
      pending := false;
      if func == DCLR {
        er1 := 0;
        ds := ds & 0x7FFF;
        Finish();
      } else if func == PRESET || func == PACK {
        ds := ds | 0x40;
        Finish();
      } else if func == SEARCH {
        cc := dc;
        busy := true;
        doneNs := now + BASE_NS;
      } else if func == READ || func == WRITE || func == WCHK {
        var count := Words(wc);
        if func != WCHK {
          Transfer();
        }
        busy := true;
        doneNs := now + BASE_NS + count * WORD_NS;
      } else {
        Finish();
      }
    }

    method Poll(now: nat)
      requires Safe()
      modifies `busy, `cs1, `ds, `pending
      ensures Safe()
      ensures if old(busy) && now >= doneNs
              then !busy && cs1 == WithDone(old(cs1)) && pending == Enabled(cs1) && ds == old(ds) | 0x8000
              else busy == old(busy) && cs1 == old(cs1) && ds == old(ds) && pending == old(pending)
    {
      if busy && now >= doneNs {
        Finish();
      }
    }

    method WriteCommand(value: bv16, now: nat)
      requires Safe()
      modifies `cs1, `wc, `ba, `bae, `da, `dc, `cc, `ds, `er1, `busy, `doneNs, `pending
      ensures Safe() && Enabled(cs1) == Enabled(value)
      ensures busy && !old(busy) ==> Go(value) && !pending && doneNs >= now + 2_000_000
      ensures old(busy) ==> busy && doneNs == old(doneNs)
      ensures !Go(value) ==>
                && Done(cs1) == Done(old(cs1))
                && pending == (Enabled(value) && (old(pending) || (Done(cs1) && !Enabled(old(cs1)))))
      ensures Go(value) && old(Done(cs1)) ==>
                var func := Function(value);
                && (busy <==> func in {12, 20, 24, 28})
                && (busy ==> && !pending
                             && doneNs == now + 2_000_000 + if func == 12 then 0 else Words(old(wc)) * 100)
                && (!busy ==> pending == Enabled(value))
    {
      hide Words;
      hide Written, Function, Flags, Done, Enabled;
      if !Enabled(value) {
        pending := false;
      } else if Flags(cs1) == 0x80 {
        pending := true;
      }
      cs1 := Written(cs1, value);
      if Done(cs1) && Go(value) {
        Start(now);
      }
    }

    /** A register write. Controller clear abandons whatever is in progress; only a command starts anything. */
    method Write(reg: Register, value: bv16, now: nat)
      requires Safe()
      modifies this
      ensures Safe()
      ensures busy && !old(busy) ==> reg == Cs1 && Go(value) && !pending && doneNs >= now + 2_000_000
      ensures reg == Cs1 && Go(value) && old(Done(cs1)) ==>
                var func := Function(value);
                && (busy <==> func in {12, 20, 24, 28})
                && (busy ==> && !pending
                             && doneNs == now + 2_000_000 + if func == 12 then 0 else Words(old(wc)) * 100)
                && (!busy ==> pending == Enabled(value))
      ensures old(busy) && !busy ==> reg == Cs2 && value & 0x20 != 0
      ensures old(busy) && busy ==> doneNs == old(doneNs)
      ensures reg == Cs2 && value & 0x20 != 0 ==> cs1 == 0x80 && !busy && !pending && er1 == 0
      ensures reg != Cs1 && !(reg == Cs2 && value & 0x20 != 0) ==> cs1 == old(cs1) && pending == old(pending)
    {
      match reg
      case Cs1 => WriteCommand(value, now);
      case Wc => wc := value;
      case Ba => ba := value;
      case Cs2 =>
        if ControllerClear(value) {
          cs1, er1, busy, pending := READY, 0, false, false;
        }
        cs2 := value;
      case Bae => bae := value & 0x3F;
      case Da => da := value & 0x3F3F;
      case Dc => dc := value & 0x3FF;
      case Other =>
    }
  }
}
