/** The KW11-L line clock. */
module Clk {
  import opened Csr

  class LineClock {
    var csr: bv16
    var pending: bool

    constructor ()
      ensures csr == 0x80 && !pending && Safe()
    {
      csr := READY;
      pending := false;
    }

    /** A request is never up unless the clock is done and enabled. */
    predicate Safe()
      reads this
    {
      pending ==> Asserts(csr)
    }

    /** The processor's grant drops the request. */
    method Acknowledge()
      requires Safe()
      modifies `pending
      ensures Safe() && !pending
    {
      pending := false;
    }

    /** INIT */
    method Reset()
      modifies this
      ensures csr == 0x80 && !pending && Safe()
    {
      csr := READY;
      pending := false;
    }

    function Read(): (value: bv16)
      reads this
      ensures Done(value) == Done(csr) && Enabled(value) == Enabled(csr)
    {
      Flags(csr)
    }

    /** A program can set or clear the enable, and clear but not set done; the request follows the two. */
    method Write(value: bv16)
      modifies this
      ensures Safe() && pending == Asserts(csr)
      ensures Enabled(csr) == Enabled(value) && Done(csr) == (Done(old(csr)) && Done(value))
      ensures csr & 0xFF3F == old(csr) & 0xFF3F
    {
      csr := WithEnableOf(csr, value);
      if !Done(value) {
        csr := WithoutDone(csr);
      }
      pending := Flags(csr) == 0xC0;
    }

    method Tick()
      requires Safe()
      modifies this
      ensures Safe() && Done(csr) && Enabled(csr) == Enabled(old(csr))
      ensures pending == (old(pending) || Enabled(csr))
    {
      csr := WithDone(csr);
      if Enabled(csr) {
        pending := true;
      }
    }
  }
}
