/** The status-register convention the controllers share: bit 7 done, bit 6 interrupt enable, bit 0 go. */
module Csr {
  predicate Done(csr: bv16) { csr & 0x80 != 0 }

  predicate Enabled(csr: bv16) { csr & 0x40 != 0 }

  predicate Go(csr: bv16) { csr & 0x1 != 0 }

  /** The three bits in their places. */
  lemma Bits(csr: bv16)
    ensures csr & 0xC1 == (if Done(csr) then 0x80 else 0) | (if Enabled(csr) then 0x40 else 0)
                          | (if Go(csr) then 0x1 else 0)
  {
  }

  /** What a bus request stands for: the device is done and wants an interrupt for it. */
  predicate Asserts(csr: bv16) { Done(csr) && Enabled(csr) }

  /** A register with only done set: the state INIT leaves. */
  const READY: bv16 := 0x80

  function WithDone(csr: bv16): (c: bv16)
    ensures Done(c) && Enabled(c) == Enabled(csr) && c & 0xFF3F == csr & 0xFF3F
  {
    csr | 0x80
  }

  function WithoutDone(csr: bv16): (c: bv16)
    ensures !Done(c) && Enabled(c) == Enabled(csr) && c & 0xFF3F == csr & 0xFF3F
  {
    csr & 0xFF7F
  }

  /** The enable from a written value, the rest kept. */
  function WithEnableOf(csr: bv16, value: bv16): (c: bv16)
    ensures Enabled(c) == Enabled(value) && Done(c) == Done(csr) && c & 0xFF3F == csr & 0xFF3F
  {
    (csr & 0xFFBF) | (value & 0x40)
  }

  /** The two flags alone, as a program reads them. */
  function Flags(csr: bv16): (f: bv16)
    ensures Done(f) == Done(csr) && Enabled(f) == Enabled(csr)
    ensures f == 0xC0 <==> Asserts(csr)
    ensures f == 0x80 <==> Done(csr) && !Enabled(csr)
  {
    csr & 0xC0
  }
}
