/** The Unibus map: 18-bit device addresses relocated to physical ones through 32 registers. */
module Unibus {
  import opened Words
  import opened Kt11
  import opened Memory

  const UBA_LIMIT: nat := 0x4_0000

  datatype Map = Map(enabled: bool, regs: seq<nat>)

  predicate IsMap(m: Map) { |m.regs| == 32 }

  /** pdp11_unibus_map: disabled, the address itself; the last page always bypasses to the I/O page. */
  function Physical(m: Map, uba: nat): (pa: nat)
    requires IsMap(m)
    ensures pa < PA_LIMIT
  {
    var page, off := uba / 0x2000 % 32, uba % 0x2000;
    if !m.enabled then uba % UBA_LIMIT
    else if page == 31 then (IOPAGE_TOP + off) % PA_LIMIT
    else (m.regs[page] + off) % PA_LIMIT
  }

  /** With the map off an 18-bit address is itself. With it on, the top 8 KB are the I/O page, and each other 8 KB lie
      in one piece from the base their register holds: changing a register moves the addresses it is for and no
      others. */
  lemma MapsBy(m: Map, uba: nat, k: nat, base: nat)
    requires IsMap(m) && uba < 0x4_0000 && k < 32
    ensures !m.enabled ==> Physical(m, uba) == uba
    ensures m.enabled && uba >= 0x3_E000 ==> Physical(m, uba) == 0x3F_E000 + (uba - 0x3_E000)
    ensures m.enabled && uba < 0x3_E000 ==> Physical(m, uba) == (m.regs[uba / 0x2000] + uba % 0x2000) % 0x40_0000
    ensures m.enabled ==> Physical(m.(regs := m.regs[k := base]), uba) ==
                          if uba / 0x2000 == k < 31 then (base + uba % 0x2000) % 0x40_0000 else Physical(m, uba)
  {
    assert uba == uba / 0x2000 * 0x2000 + uba % 0x2000;
  }

  /** The physical address of byte i of a device's buffer; the 18-bit address wraps. */
  function Address(m: Map, xma: nat, i: nat): (pa: nat)
    requires IsMap(m)
    ensures pa < PA_LIMIT
  {
    Physical(m, (xma + i) % UBA_LIMIT)
  }

  /** A buffer runs upwards: with the map off from its address on, round the end of the 256 KB, and from any of its
      bytes on it is the buffer that starts there. */
  lemma BufferRunsOn(m: Map, xma: nat, i: nat, j: nat)
    requires IsMap(m)
    ensures !m.enabled ==> Address(m, xma, i) == (xma + i) % 0x4_0000
    ensures Address(m, xma, i + j) == Address(m, xma + i, j)
  {
  }

  /** No two of the buffer's n bytes are the same byte of memory. */
  ghost predicate NoAlias(m: Map, xma: nat, n: nat)
    requires IsMap(m)
  {
    forall i, j :: 0 <= i < j < n ==> Address(m, xma, i) != Address(m, xma, j)
  }

  /** With the map off, no buffer of up to 256 KB meets itself. */
  lemma IdentityNeverAliases(m: Map, xma: nat, n: nat)
    requires IsMap(m) && !m.enabled && n <= UBA_LIMIT
    ensures NoAlias(m, xma, n)
  {
    forall i, j | 0 <= i < j < n
      ensures Address(m, xma, i) != Address(m, xma, j)
    {
      Apart(xma + i, xma + j);
    }
  }

  lemma Apart(a: nat, b: nat)
    requires a < b < a + UBA_LIMIT
    ensures a % UBA_LIMIT % UBA_LIMIT != b % UBA_LIMIT % UBA_LIMIT
  {
  }

  /** Memory after a device stores bytes, in order, through the map. */
  function Delivered(ram: seq<u16>, m: Map, xma: nat, bytes: seq<byte>): (ram': seq<u16>)
    requires IsRam(ram) && IsMap(m)
    ensures IsRam(ram')
    decreases |bytes|
  {
    if bytes == [] then ram
    else
      var last := |bytes| - 1;
      Stored(Delivered(ram, m, xma, bytes[..last]), Address(m, xma, last), true, bytes[last])
  }

  /** The bytes a device would fetch through the map. */
  function Fetched(ram: seq<u16>, m: Map, xma: nat, n: nat): (bytes: seq<byte>)
    requires IsRam(ram) && IsMap(m)
    ensures |bytes| == n
  {
    seq(n, i requires 0 <= i < n => ByteAt(ram, Address(m, xma, i)))
  }

  /** A buffer that does not meet itself holds what was delivered to it. */
  lemma {:induction false} DeliveredFetchedAt(ram: seq<u16>, m: Map, xma: nat, bytes: seq<byte>, i: nat)
    requires IsRam(ram) && IsMap(m) && NoAlias(m, xma, |bytes|) && i < |bytes|
    ensures ByteAt(Delivered(ram, m, xma, bytes), Address(m, xma, i)) == bytes[i]
    decreases |bytes|
  {
    var last := |bytes| - 1;
    var ram' := Delivered(ram, m, xma, bytes[..last]);
    hide Stored, ByteAt, Address;
    StoreReplacesBytes(ram', Address(m, xma, last), true, bytes[last], Address(m, xma, i));
    if i < last {
      DeliveredFetchedAt(ram, m, xma, bytes[..last], i);
    }
  }

  /** Nothing but the buffer changes. */
  lemma {:induction false} DeliveredElsewhere(ram: seq<u16>, m: Map, xma: nat, bytes: seq<byte>, at: nat)
    requires IsRam(ram) && IsMap(m) && at < PA_LIMIT
    requires forall i :: 0 <= i < |bytes| ==> Address(m, xma, i) != at
    ensures ByteAt(Delivered(ram, m, xma, bytes), at) == ByteAt(ram, at)
    decreases |bytes|
  {
    if bytes != [] {
      var last := |bytes| - 1;
      hide Stored, ByteAt, Address;
      StoreReplacesBytes(Delivered(ram, m, xma, bytes[..last]), Address(m, xma, last), true, bytes[last], at);
      DeliveredElsewhere(ram, m, xma, bytes[..last], at);
    }
  }

  lemma DeliveredFetched(ram: seq<u16>, m: Map, xma: nat, bytes: seq<byte>)
    requires IsRam(ram) && IsMap(m) && NoAlias(m, xma, |bytes|)
    ensures Fetched(Delivered(ram, m, xma, bytes), m, xma, |bytes|) == bytes
  {
    forall i | 0 <= i < |bytes|
      ensures ByteAt(Delivered(ram, m, xma, bytes), Address(m, xma, i)) == bytes[i]
    {
      DeliveredFetchedAt(ram, m, xma, bytes, i);
    }
    hide Delivered, ByteAt, Address;
  }
}
