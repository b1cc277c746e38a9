/** The DL11 console line: a receiver and a transmitter, each with its own status register and request. */
module Console {
  import opened Csr

  const TX_NS: nat := 1_000_000

  datatype Register = Rcsr | Rbuf | Xcsr | Xbuf

  class Dl11 {
    var ttiCsr: bv16
    var ttiBuf: bv16
    var ttoCsr: bv16
    var ttoBuf: bv16
    var ttoBusy: bool
    var ttoDone: nat
    var ttiPending: bool
    var ttoPending: bool
    /** What has reached the sink. */
    var sent: seq<bv16>

    constructor ()
      ensures Safe() && !ttiPending && !ttoPending && !ttoBusy && sent == []
    {
      ttiCsr, ttiBuf, ttoCsr, ttoBuf := 0, 0, READY, 0;
      ttoBusy, ttoDone, ttiPending, ttoPending, sent := false, 0, false, false, [];
    }

    /** Requests only for a half that is done and enabled, and a transmitter that is not done is busy, so that
        its completion is always on the way. */
    predicate Safe()
      reads this
    {
      && (ttiPending ==> Asserts(ttiCsr))
      && (ttoPending ==> Asserts(ttoCsr))
      && (ttoBusy <==> !Done(ttoCsr))
    }

    /** The processor's grant drops the request of one half. */
    method Acknowledge(receiver: bool)
      requires Safe()
      modifies `ttiPending, `ttoPending
      ensures Safe() && (if receiver then !ttiPending && ttoPending == old(ttoPending)
                         else !ttoPending && ttiPending == old(ttiPending))
    {
      if receiver {
        ttiPending := false;
      } else {
        ttoPending := false;
      }
    }

    method Reset()
      modifies this
      ensures Safe() && !ttiPending && !ttoPending && !ttoBusy && sent == old(sent)
    {
      ttiCsr, ttoCsr, ttoBusy := 0, READY, false;
      ttiPending, ttoPending := false, false;
    }

    method Input(ch: bv16)
      requires Safe()
      modifies `ttiBuf, `ttiCsr, `ttiPending
      ensures Safe() && ttiBuf == ch && Done(ttiCsr) && Enabled(ttiCsr) == Enabled(old(ttiCsr))
      ensures ttiPending == (old(ttiPending) || Enabled(ttiCsr))
    {
      ttiBuf := ch;
      ttiCsr := WithDone(ttiCsr);
      if Enabled(ttiCsr) {
        ttiPending := true;
      }
    }

    method Poll(now: nat)
      requires Safe()
      modifies `ttoBusy, `ttoCsr, `ttoPending
      ensures Safe()
      ensures if old(ttoBusy) && now >= ttoDone
              then !ttoBusy && Done(ttoCsr) && Enabled(ttoCsr) == Enabled(old(ttoCsr)) && ttoPending == Enabled(ttoCsr)
              else ttoBusy == old(ttoBusy) && ttoCsr == old(ttoCsr) && ttoPending == old(ttoPending)
    {
      if ttoBusy && now >= ttoDone {
        ttoBusy := false;
        ttoCsr := WithDone(ttoCsr);
        if Enabled(ttoCsr) {
          ttoPending := true;
        }
      }
    }

    /** Reading the receive buffer takes the character and with it the request. */
    method Read(reg: Register) returns (value: bv16)
      requires Safe()
      modifies `ttiCsr, `ttiPending
      ensures Safe()
      ensures reg == Rbuf ==> value == ttiBuf & 0xFF && !Done(ttiCsr) && !ttiPending
                              && Enabled(ttiCsr) == Enabled(old(ttiCsr))
      ensures reg != Rbuf ==> ttiCsr == old(ttiCsr) && ttiPending == old(ttiPending)
      ensures reg == Rcsr ==> Done(value) == Done(ttiCsr) && Enabled(value) == Enabled(ttiCsr)
      ensures reg == Xcsr ==> Done(value) == Done(ttoCsr) && Enabled(value) == Enabled(ttoCsr)
    {
      match reg
      case Rcsr => value := Flags(ttiCsr);
      case Rbuf =>
        ttiCsr := WithoutDone(ttiCsr);
        ttiPending := false;
        value := ttiBuf & 0xFF;
      case Xcsr => value := Flags(ttoCsr);
      case Xbuf => value := ttoBuf & 0xFF;
    }

    /** Of a status register only the enable can be written, and enabling a half that is already done raises
        its request; writing the transmit buffer sends the character and starts the busy time. */
    method Write(reg: Register, value: bv16, now: nat)
      requires Safe()
      modifies this
      ensures Safe() && ttiBuf == old(ttiBuf)
      ensures reg == Rcsr ==> Enabled(ttiCsr) == Enabled(value) && Done(ttiCsr) == Done(old(ttiCsr))
      ensures reg == Rcsr ==>
                ttiPending == (Enabled(value) && (old(ttiPending) || (Done(ttiCsr) && !Enabled(old(ttiCsr)))))
      ensures reg == Xcsr ==> Enabled(ttoCsr) == Enabled(value) && Done(ttoCsr) == Done(old(ttoCsr))
      ensures reg == Xcsr ==>
                ttoPending == (Enabled(value) && (old(ttoPending) || (Done(ttoCsr) && !Enabled(old(ttoCsr)))))
      ensures reg == Xbuf ==> ttoBusy && ttoDone == now + 1_000_000 && !ttoPending && sent == old(sent) + [value & 0xFF]
      ensures reg == Rcsr || reg == Rbuf ==> ttoCsr == old(ttoCsr) && ttoPending == old(ttoPending)
      ensures reg == Xcsr || reg == Xbuf ==> ttiCsr == old(ttiCsr) && ttiPending == old(ttiPending)
      ensures reg != Xbuf ==> ttoBusy == old(ttoBusy) && ttoDone == old(ttoDone) && sent == old(sent)
    {
      hide WithEnableOf, WithoutDone, Flags, Done, Enabled;
      match reg
      case Rcsr =>
        if !Enabled(value) {
          ttiPending := false;
        } else if Flags(ttiCsr) == 0x80 {
          ttiPending := true;
        }
        ttiCsr := WithEnableOf(ttiCsr, value);
      case Rbuf =>
      case Xcsr =>
        if !Enabled(value) {
          ttoPending := false;
        } else if Flags(ttoCsr) == 0x80 {
          ttoPending := true;
        }
        ttoCsr := WithEnableOf(ttoCsr, value);
      case Xbuf =>
        ttoBuf := value & 0xFF;
        sent := sent + [value & 0xFF];
        ttoCsr := WithoutDone(ttoCsr);
        ttoPending := false;
        ttoBusy := true;
        ttoDone := now + TX_NS;
    }
  }
}
