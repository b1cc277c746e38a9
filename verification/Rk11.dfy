/** The RK11 disk controller's command protocol. The words a transfer moves are left open. */
module Rk11 {
  import opened Csr

  const BASE_NS: nat := 1_000_000
  const WORD_NS: nat := 100

  datatype Register = Rker | Rkcs | Rkwc | Rkba | Rkda | Rkds | Other

  // Functions, in bits 3:1 of the status register.
  const CRESET: bv16 := 0
  const WRITE: bv16 := 1
  const READ: bv16 := 2
  const WCHK: bv16 := 3
  const DRESET: bv16 := 6
  const WLK: bv16 := 7

  function Function(cs: bv16): bv16 { (cs >> 1) & 7 }

  lemma FunctionField(cs: bv16)
    ensures cs & 0xE == Function(cs) << 1
  {
  }

  /** Bits kept when the register is written. */
  function Real(cs: bv16): (c: bv16)
    ensures Done(c) == Done(cs) && Enabled(c) == Enabled(cs) && c & 0xD201 == 0 && c & 0x2DFE == cs & 0x2DFE
  {
    cs & 0x2DFE
  }

  /** The program's bits from a written value: the enable among them, done not. */
  function Written(cs: bv16, value: bv16): (c: bv16)
    ensures Done(c) == Done(cs) && Enabled(c) == Enabled(value) && Function(c) == Function(value)
    ensures c & 0x0D7E == value & 0x0D7E && c & 0xF281 == cs & 0xF281
  {
    (cs & 0xF281) | (value & 0x0D7E)
  }

  function Started(cs: bv16): (c: bv16)
    ensures !Done(c) && Enabled(c) == Enabled(cs) && Function(c) == Function(cs) && c & 0xDF7F == cs & 0xDF7F
  {
    cs & 0xDF7F
  }

  function WithError(cs: bv16, hard: bool): (c: bv16)
    ensures Done(c) == Done(cs) && Enabled(c) == Enabled(cs)
  {
    if hard then cs | 0xC000 else cs | 0x8000
  }

  /** The summary bit and, for a hard error, bit 14 are set, and no other bit moves. */
  lemma ErrorBits(cs: bv16)
    ensures WithError(cs, true) & 0x3FFF == cs & 0x3FFF && WithError(cs, true) & 0xC000 == 0xC000
    ensures WithError(cs, false) & 0x7FFF == cs & 0x7FFF && WithError(cs, false) & 0x8000 == 0x8000
  {
  }

  function WithExtension(cs: bv16, mex: bv16): (c: bv16)
    ensures Done(c) == Done(cs) && Enabled(c) == Enabled(cs) && c & 0xFFCF == cs & 0xFFCF
  {
    (cs & 0xFFCF) | (mex & 0x30)
  }

  /** A disk address: drive in bits 15:13, cylinder in 12:5, surface in 4, sector in 3:0. */
  lemma AddressFields(da: bv16)
    ensures da == ((da >> 13) << 13) | (Cylinder(da) << 5) | (da & 0x10) | Sector(da)
  {
  }

  function Sector(da: bv16): bv16 { da & 0xF }

  function Cylinder(da: bv16): bv16 { (da >> 5) & 0xFF }

  /** A command that moves the disk or data is taken only for drive 0, attached, at an existing sector and
      cylinder; drive reset goes to the first. */
  predicate Accepted(func: bv16, attached: bool, da: bv16) {
    && func != CRESET && func != WLK && attached && da & 0xE000 == 0
    && (func == DRESET || (Sector(da) < 12 && Cylinder(da) < 203))
  }

  /** So of the eight functions, 0 (control reset) and 7 (write lock) are finished at once, and 6 (drive reset) does
      not look at the address. */
  lemma AcceptedIff(func: bv16, attached: bool, da: bv16)
    requires func < 8
    ensures Accepted(func, attached, da) <==>
            && attached && da & 0xE000 == 0
            && (func == 6 || (1 <= func <= 5 && da & 0xF < 12 && da & 0x1FE0 < 203 << 5))
  {
  }

  /** The words a two's-complement counter asks for: as many as bring it to zero, and zero asks for all 64 K. */
  function Words(wc: bv16): (n: nat)
    ensures 1 <= n <= 0x1_0000 && (wc as int + n) % 0x1_0000 == 0
  {
    0x1_0000 - wc as int
  }

  /** The error bit of a command that is not taken: no such drive, sector or cylinder. Write lock is no error. */
  function Refusal(func: bv16, attached: bool, da: bv16): bv16 {
    if !attached || da & 0xE000 != 0 then 0x80
    else if func == WLK then 0
    else if func != DRESET && Sector(da) >= 12 then 0x20
    else 0x40
  }

  class Controller {
    var rkcs: bv16
    var rker: bv16
    var rkwc: bv16
    var rkba: bv16
    var rkda: bv16
    var rkds: bv16
    var attached: bool
    var busy: bool
    var doneNs: nat
    var pending: bool

    /** pdp11_cpu_reset, with a disk attached or not. */
    constructor (attached: bool)
      ensures Safe() && !pending && !busy && this.attached == attached
    {
      rkcs, rker, rkwc, rkba, rkda, rkds := READY, 0, 0, 0, 0, 0;
      this.attached, busy, doneNs, pending := attached, false, 0, false;
    }

    /** A request stands only for a controller that is done and enabled, and one that is not done has its
        completion scheduled. */
    predicate Safe()
      reads this
    {
      (pending ==> Asserts(rkcs)) && (busy <==> !Done(rkcs))
    }

    /** The processor's grant drops the request. */
    method Acknowledge()
      requires Safe()
      modifies `pending
      ensures Safe() && !pending
    {
      pending := false;
    }

    method Reset()
      modifies `rkcs, `rker, `busy, `pending
      ensures Safe() && !pending && !busy
    {
      rkcs, rker, busy, pending := READY, 0, false, false;
    }

    method SetError(err: bv16)
      modifies `rker, `rkcs
      ensures Done(rkcs) == Done(old(rkcs)) && Enabled(rkcs) == Enabled(old(rkcs)) && rker == old(rker) | err
      ensures rkcs == WithError(old(rkcs), rker & 0xFFE0 != 0)
    {
      rker := rker | err;
      rkcs := WithError(rkcs, rker & 0xFFE0 != 0);
    }

    method Finish()
      modifies `busy, `rkcs, `pending
      ensures !busy && rkcs == WithDone(old(rkcs)) && pending == Enabled(rkcs)
    {
      busy := false;
      rkcs := WithDone(rkcs);
      pending := Enabled(rkcs);
    }

    /** A transfer's effect on the registers: some word count, address, extension and errors. */
    method Transfer()
      modifies `rkcs, `rker, `rkwc, `rkba, `rkda
      ensures Done(rkcs) == Done(old(rkcs)) && Enabled(rkcs) == Enabled(old(rkcs))
    {
      if * {
        SetError(0x4000);
      }
      if * {
        SetError(0x1);
      }
      var extension: bv16 := *;
      rkcs := WithExtension(rkcs, extension);
      rkwc, rkba, rkda := *, *, *;
    }

    /** rk_go: errors finish at once, anything valid is scheduled, and either way the old request is dropped. */
    method Start(now: nat)
      requires Done(rkcs) && !busy
      modifies `rkcs, `rker, `rkwc, `rkba, `rkda, `busy, `doneNs, `pending
      ensures Safe()
      ensures busy <==> Accepted(Function(old(rkcs)), attached, old(rkda))
      ensures busy ==> !pending && doneNs == now + BASE_NS + Words(old(rkwc)) * WORD_NS
      ensures !busy && Function(old(rkcs)) != CRESET ==> pending == Enabled(old(rkcs))
      ensures Function(old(rkcs)) == CRESET ==> !busy && !pending && rker == 0 && rkcs == READY
      ensures Function(old(rkcs)) != CRESET && !busy ==>
                rker == old(rker) | Refusal(Function(old(rkcs)), attached, rkda)
    {
      hide Words;
      var func := Function(rkcs);
      if func == CRESET {
        rker, rkda, rkba, rkcs, busy, pending := 0, 0, 0, READY, false, false;
        return;
      }
      rkcs := Started(rkcs);
      pending := false;
      if !attached || rkda & 0xE000 != 0 {
        SetError(0x80);
        Finish();
        return;
      }
      if func == WLK {
        Finish();
        return;
      }
      var sector := if func == DRESET then 0 else Sector(rkda);
      var cylinder := if func == DRESET then 0 else Cylinder(rkda);
      if sector >= 12 {
        SetError(0x20);
        Finish();
        return;
      }
      if cylinder >= 203 {
        SetError(0x40);
        Finish();
        return;
      }
      var count := Words(rkwc);
      if func == READ || func == WRITE || func == WCHK {
        Transfer();
      }
      busy := true;
      doneNs := now + BASE_NS + count * WORD_NS;
    }

    method Poll(now: nat)
      requires Safe()
      modifies `busy, `rkcs, `pending
      ensures Safe()
      ensures if old(busy) && now >= doneNs
              then !busy && rkcs == WithDone(old(rkcs)) && pending == Enabled(rkcs)
              else busy == old(busy) && rkcs == old(rkcs) && pending == old(pending)
    {
      if busy && now >= doneNs {
        Finish();
      }
    }

    /** A register write. Nothing a program writes can set done, and nothing restarts a busy controller. */
    method Write(reg: Register, value: bv16, now: nat)
      requires Safe()
      modifies this
      ensures Safe() && attached == old(attached)
      ensures busy && !old(busy) ==> reg == Rkcs && Go(value) && !pending && doneNs >= now + 1_000_000
      ensures old(busy) ==> busy && doneNs == old(doneNs)
      ensures reg != Rkcs ==> rkcs == old(rkcs) && pending == old(pending)
      ensures reg == Rkcs && !Go(value) ==>
                && Enabled(rkcs) == Enabled(value) && Done(rkcs) == Done(old(rkcs))
                && pending == (Enabled(value) && (old(pending) || (Done(rkcs) && !Enabled(old(rkcs)))))
      ensures reg == Rkcs && Go(value) && old(Done(rkcs)) ==>
                var func := Function(value);
                && (busy <==> Accepted(func, attached, old(rkda)))
                && (busy ==> !pending && doneNs == now + 1_000_000 + Words(old(rkwc)) * 100)
                && (func == 0 ==> !pending && rker == 0 && rkcs == 0x80)
                && (func != 0 && !busy ==>
                    pending == Enabled(value) && rker == old(rker) | Refusal(func, attached, rkda))
      ensures reg == Rkda ==> rkda == if old(busy) then old(rkda) else value
    {
      match reg
      case Rkcs => WriteCommand(value, now);
      case Rkwc => rkwc := value;
      case Rkba => rkba := value & 0xFFFE;
      case Rkda =>
        if Done(rkcs) {
          rkda := value;
        }
      case _ =>
    }

    method WriteCommand(value: bv16, now: nat)
      requires Safe()
      modifies `rkcs, `rker, `rkwc, `rkba, `rkda, `busy, `doneNs, `pending
      ensures Safe()
      ensures busy && !old(busy) ==> Go(value) && !pending && doneNs >= now + 1_000_000
      ensures old(busy) ==> busy && doneNs == old(doneNs)
      ensures !Go(value) ==>
                && Enabled(rkcs) == Enabled(value) && Done(rkcs) == Done(old(rkcs))
                && pending == (Enabled(value) && (old(pending) || (Done(rkcs) && !Enabled(old(rkcs)))))
      ensures Go(value) && old(Done(rkcs)) ==>
                var func := Function(value);
                && (busy <==> Accepted(func, attached, old(rkda)))
                && (busy ==> !pending && doneNs == now + 1_000_000 + Words(old(rkwc)) * 100)
                && (func == 0 ==> !pending && rker == 0 && rkcs == 0x80)
                && (func != 0 && !busy ==>
                    pending == Enabled(value) && rker == old(rker) | Refusal(func, attached, rkda))
    {
      hide Accepted, Refusal, Words;
      hide Written, Real, Function, Flags, Done, Enabled;
      rkcs := Real(rkcs);
      if !Enabled(value) {
        pending := false;
      } else if Flags(rkcs) == 0x80 {
        pending := true;
      }
      rkcs := Written(rkcs, value);
      if Done(rkcs) && Go(value) {
        Start(now);
      }
    }
  }
}
