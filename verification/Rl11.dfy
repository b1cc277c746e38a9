/** The RL11 disk controller's command protocol: a command is a write with done clear, and done itself can be
    written. The words a transfer moves are left open. */
module Rl11 {
  import opened Csr

  const BASE_NS: nat := 2_000_000
  const WORD_NS: nat := 100

  datatype Register = Rlcs | Rlba | Rlda | Rlmp | Other

  // Functions, in bits 3:1 of the status register.
  const NOP: bv16 := 0
  const GSTA: bv16 := 2
  const SEEK: bv16 := 3
  const RHDR: bv16 := 4

  function Function(cs: bv16): bv16 { (cs >> 1) & 7 }

  lemma FunctionField(cs: bv16)
    ensures cs & 0xE == Function(cs) << 1
  {
  }

  function Written(cs: bv16, value: bv16): (c: bv16)
    ensures Done(c) == Done(value) && Enabled(c) == Enabled(value) && Function(c) == Function(value)
    ensures c & 0x3FE == value & 0x3FE && c & 0xFC01 == cs & 0xFC01
  {
    (cs & 0xFC01) | (value & 0x3FE)
  }

  function WithoutErrors(cs: bv16): (c: bv16)
    ensures Done(c) == Done(cs) && Enabled(c) == Enabled(cs) && Function(c) == Function(cs) && c & 0xFC00 == 0
  {
    cs & 0x3FF
  }

  predicate AnyError(status: bv16) { status & 0x7C00 != 0 }

  /** The errors are bits 14 to 10. */
  lemma ErrorBits(status: bv16)
    ensures AnyError(status) <==> || status & 0x4000 != 0 || status & 0x2000 != 0 || status & 0x1000 != 0
                                  || status & 0x800 != 0 || status & 0x400 != 0
  {
  }

  function Summarised(cs: bv16): (c: bv16)
    ensures Done(c) == Done(cs) && Enabled(c) == Enabled(cs)
    ensures c & 0x7FFF == cs & 0x7FFF && c & 0x8000 == 0x8000
  {
    cs | 0x8000
  }

  /** The error summary bit, for any of the errors. */
  function WithSummary(cs: bv16, status: bv16): (c: bv16)
    ensures Done(c) == Done(cs) && Enabled(c) == Enabled(cs)
    ensures c == if AnyError(status) then Summarised(cs) else cs
  {
    if AnyError(status) then Summarised(cs) else cs
  }

  /** Error status folded in, done and drive-ready set, and the summary bit for any of the errors. */
  function Completed(cs: bv16, status: bv16): (c: bv16)
    requires status & 0xC0 == 0
    ensures Done(c) && Enabled(c) == Enabled(cs)
    ensures c == if AnyError(status) then Summarised(cs | status | 0x81) else cs | status | 0x81
  {
    WithSummary(cs | status | 0x81, status)
  }

  function WithStatus(cs: bv16, status: bv16): (c: bv16)
    requires status & 0xC0 == 0
    ensures Done(c) == Done(cs) && Enabled(c) == Enabled(cs)
  {
    cs | status
  }

  /** Status is added: no bit of either is lost. */
  lemma StatusAdded(cs: bv16, status: bv16)
    requires status & 0xC0 == 0
    ensures WithStatus(cs, status) & status == status && WithStatus(cs, status) & cs == cs
    ensures WithStatus(cs, status) & 0xC0 == cs & 0xC0
  {
  }

  function WithExtension(cs: bv16, mex: bv16): (c: bv16)
    ensures Done(c) == Done(cs) && Enabled(c) == Enabled(cs) && c & 0xFFCF == cs & 0xFFCF
  {
    (cs & 0xFFCF) | (mex & 0x30)
  }

  function WithReady(cs: bv16, ready: bool): (c: bv16)
    ensures Done(c) == Done(cs) && Enabled(c) == Enabled(cs)
  {
    if ready then cs | 0x1 else cs & 0xFFFE
  }

  /** Drive ready is bit 0, and no other bit moves. */
  lemma ReadyBit(cs: bv16)
    ensures WithReady(cs, true) & 0xFFFE == cs & 0xFFFE && WithReady(cs, true) & 0x1 == 0x1
    ensures WithReady(cs, false) & 0xFFFE == cs & 0xFFFE && WithReady(cs, false) & 0x1 == 0
  {
  }

  /** The register as a program reads it: drive ready tracks the drive, and any error sets the summary. */
  function Refreshed(cs: bv16, ready: bool): (c: bv16)
    ensures Done(c) == Done(cs) && Enabled(c) == Enabled(cs)
    ensures c == if AnyError(cs) then Summarised(WithReady(cs, ready)) else WithReady(cs, ready)
  {
    WithSummary(WithReady(cs, ready), cs)
  }

  /** The words a two's-complement counter asks for: as many as bring it to zero, and zero asks for all 64 K. */
  function Words(wc: bv16): (n: nat)
    ensures 1 <= n <= 0x1_0000 && (wc as int + n) % 0x1_0000 == 0
  {
    0x1_0000 - wc as int
  }

  class Controller {
    var rlcs: bv16
    var rlba: bv16
    var rlda: bv16
    var rlmp: bv16
    var trk: bv16
    var attached: bool
    var busy: bool
    var doneNs: nat
    var pending: bool

    /** pdp11_cpu_reset, with a disk attached or not. */
    constructor (attached: bool)
      ensures Safe() && !pending && !busy && this.attached == attached
    {
      rlcs, rlba, rlda, rlmp, trk := READY, 0, 0, 0, 0;
      this.attached, busy, doneNs, pending := attached, false, 0, false;
    }

    /** Done can be written while a transfer is in progress, so of the two only one direction holds: a
        controller that is not done has its completion scheduled. */
    predicate Safe()
      reads this
    {
      (pending ==> Asserts(rlcs)) && (busy || Done(rlcs))
    }

    /** The processor's grant drops the request. */
    method Acknowledge()
      requires Safe()
      modifies `pending
      ensures Safe() && !pending
    {
      pending := false;
    }

    /** Bus INIT drops the request and touches nothing else here. */
    method Reset()
      requires Safe()
      modifies `pending
      ensures Safe() && !pending
    {
      pending := false;
    }

    method Finish(status: bv16)
      requires status & 0xC0 == 0
      modifies `busy, `rlcs, `pending
      ensures !busy && rlcs == Completed(old(rlcs), status) && pending == Enabled(rlcs)
    {
      busy := false;
      rlcs := Completed(rlcs, status);
      pending := Enabled(rlcs);
    }

    method Transfer() returns (status: bv16)
      modifies `rlcs, `rlba, `rlda, `rlmp, `trk
      ensures Done(rlcs) == Done(old(rlcs)) && Enabled(rlcs) == Enabled(old(rlcs)) && status & 0xC0 == 0
    {
      status := 0;
      if * {
        status := status | 0x8400;
      }
      if * {
        status := status | 0x8800;
      }
      var extension: bv16 := *;
      rlcs := WithExtension(rlcs, extension);
      rlba, rlda, rlmp, trk := *, *, *, *;
    }

    /** rl_go */
    method Start(now: nat)
      modifies `rlcs, `rlba, `rlda, `rlmp, `trk, `busy, `doneNs, `pending
      ensures Safe() && Enabled(rlcs) == Enabled(old(rlcs))
      ensures !Done(rlcs) <==> attached && Function(old(rlcs)) != NOP && Function(old(rlcs)) != GSTA
      ensures Done(rlcs) ==> !busy && pending == Enabled(rlcs)
      ensures !Done(rlcs) ==>
                && busy && !pending
                && doneNs == now + BASE_NS + (if Function(old(rlcs)) in {SEEK, RHDR} then 0 else Words(rlmp) * WORD_NS)
      ensures Done(rlcs) ==> rlcs == Completed(WithoutDone(old(rlcs)), if !attached then 0x4400
                                               else if Function(old(rlcs)) == GSTA && rlda & 0x2 == 0 then 0x400 else 0)
    {
      hide Words, Completed, Function, WithStatus;
      var func := Function(rlcs);
      rlcs := WithoutDone(rlcs);
      pending := false;
      if !attached {
        Finish(0x4400);
        return;
      }
      if func == NOP {
        Finish(0);
      } else if func == GSTA {
        if rlda & 0x2 == 0 {
          Finish(0x400);
          return;
        }
        rlmp := *;
        Finish(0);
      } else if func == SEEK {
        trk := *;
        busy := true;
        doneNs := now + BASE_NS;
      } else if func == RHDR {
        rlmp := trk;
        busy := true;
        doneNs := now + BASE_NS;
      } else {
        var status := Transfer();
        busy := true;
        doneNs := now + BASE_NS + Words(rlmp) * WORD_NS;
        rlcs := WithStatus(rlcs, status);
      }
    }

    method Poll(now: nat)
      requires Safe()
      modifies `busy, `rlcs, `pending
      ensures Safe()
      ensures if old(busy) && now >= doneNs
              then !busy && rlcs == Completed(old(rlcs), 0) && pending == Enabled(rlcs)
              else busy == old(busy) && rlcs == old(rlcs) && pending == old(pending)
    {
      if busy && now >= doneNs {
        Finish(0);
      }
    }

    method ReadStatus() returns (value: bv16)
      requires Safe()
      modifies `rlcs
      ensures Safe() && value == rlcs && Done(rlcs) == Done(old(rlcs)) && Enabled(rlcs) == Enabled(old(rlcs))
    {
      rlcs := Refreshed(rlcs, attached && !busy);
      value := rlcs;
    }

    /** A write with done set only re-evaluates the request; with done clear it drops the request and goes. */
    method WriteCommand(value: bv16, now: nat)
      requires Safe()
      modifies `rlcs, `rlba, `rlda, `rlmp, `trk, `busy, `doneNs, `pending
      ensures Safe() && Enabled(rlcs) == Enabled(value)
      ensures Done(value) ==> Done(rlcs) && pending == Enabled(value) && busy == old(busy) && doneNs == old(doneNs)
      ensures !Done(value) ==>
                var func := Function(value);
                && (Done(rlcs) <==> !attached || func == 0 || func == 2)
                && (if Done(rlcs) then !busy && pending == Enabled(value)
                    else && busy && !pending
                         && doneNs == now + 2_000_000 + if func in {3, 4} then 0 else Words(rlmp) * 100)
    {
      rlcs := Written(rlcs, value);
      if Done(value) {
        if !Enabled(value) {
          pending := false;
        } else if Done(rlcs) {
          pending := true;
        }
        return;
      }
      pending := false;
      rlcs := WithoutErrors(rlcs);
      Start(now);
    }

    method Write(reg: Register, value: bv16, now: nat)
      requires Safe()
      modifies this
      ensures Safe() && attached == old(attached)
      ensures reg != Rlcs ==> rlcs == old(rlcs) && pending == old(pending) && busy == old(busy)
      ensures reg == Rlcs && Done(value) ==> busy == old(busy) && pending == Enabled(value)
      ensures reg == Rlcs && !Done(value) ==>
                && (busy <==> attached && Function(value) != 0 && Function(value) != 2)
                && pending == (!busy && Enabled(value))
    {
      match reg
      case Rlcs => WriteCommand(value, now);
      case Rlba => rlba := value & 0xFFFE;
      case Rlda => rlda := value;
      case Rlmp => rlmp := value;
      case Other =>
    }
  }
}
