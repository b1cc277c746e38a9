/** Physical memory: 22-bit byte addresses over an array of little-endian words. */
module Memory {
  import opened Words
  import opened Kt11

  const MEM_WORDS: nat := 0x20_0000

  predicate IsRam(ram: seq<u16>) { |ram| == MEM_WORDS }

  function HalfOf(word: u16, high: bool): (b: nat)
    ensures b < 256
  {
    if high then word / 256 else word % 256
  }

  /** The byte at a physical address: the even address holds the low byte. */
  function ByteAt(ram: seq<u16>, pa: nat): (b: nat)
    requires IsRam(ram) && pa < PA_LIMIT
    ensures b < 256
  {
    HalfOf(ram[pa / 2], pa % 2 == 1)
  }

  function WithHalf(word: u16, high: bool, b: nat): u16
    requires b < 256
  {
    if high then word % 256 + b * 256 else word / 256 * 256 + b
  }

  lemma HalfOfWithHalf(word: u16, high: bool, b: nat, high': bool)
    requires b < 256
    ensures HalfOf(WithHalf(word, high, b), high') == if high == high' then b else HalfOf(word, high')
  {
    if !high {
      assert (word / 256 * 256 + b) / 256 == word / 256;
    }
  }

  method ReadWord(mem: array<u16>, addr: nat) returns (w: u16)
    requires mem.Length == MEM_WORDS
    ensures addr < PA_LIMIT ==> w == mem[addr / 2]
  {
    w := mem[addr % PA_LIMIT / 2];
  }

  method WriteWord(mem: array<u16>, addr: nat, value: u16)
    requires mem.Length == MEM_WORDS
    modifies mem
    ensures addr < PA_LIMIT ==> mem[..] == old(mem[..])[addr / 2 := value]
  {
    mem[addr % PA_LIMIT / 2] := value;
  }

  method ReadByte(mem: array<u16>, addr: nat) returns (b: nat)
    requires mem.Length == MEM_WORDS
    ensures b < 256 && (addr < PA_LIMIT ==> b == ByteAt(mem[..], addr))
  {
    var word := ReadWord(mem, addr);
    b := if addr % 2 == 1 then word / 256 else word % 256;
  }

  /** A byte store changes that byte of memory and no other. */
  method WriteByte(mem: array<u16>, addr: nat, value: nat)
    requires mem.Length == MEM_WORDS && value < 256
    modifies mem
    ensures addr < PA_LIMIT ==> mem[..] == old(mem[..])[addr / 2 := WithHalf(old(mem[addr / 2]), addr % 2 == 1, value)]
  {
    var index := addr % PA_LIMIT / 2;
    var word := mem[index];
    if addr % 2 == 1 {
      word := word % 256 + value * 256;
    } else {
      word := word / 256 * 256 + value;
    }
    mem[index] := word;
  }

  /** Memory after storing the low bytes of a value, one byte or two, at a physical address. */
  function Stored(ram: seq<u16>, pa: nat, byte: bool, value: u16): (ram': seq<u16>)
    requires IsRam(ram) && pa < PA_LIMIT
    ensures IsRam(ram')
  {
    ram[pa / 2 := if byte then WithHalf(ram[pa / 2], pa % 2 == 1, value % 256) else value]
  }

  function Loaded(ram: seq<u16>, pa: nat, byte: bool): u16
    requires IsRam(ram) && pa < PA_LIMIT
  {
    if byte then ByteAt(ram, pa) else ram[pa / 2]
  }

  /** Storing replaces exactly the addressed bytes: any later byte of memory is the new data if the store
      covered its address and the old byte otherwise. */
  lemma StoreReplacesBytes(ram: seq<u16>, pa: nat, byte: bool, value: u16, at: nat)
    requires IsRam(ram) && pa < PA_LIMIT && at < PA_LIMIT && (byte || pa % 2 == 0)
    ensures ByteAt(Stored(ram, pa, byte, value), at) ==
            if at == pa then value % 256
            else if !byte && at == pa + 1 then value / 256
            else ByteAt(ram, at)
  {
    HalfOfWithHalf(ram[pa / 2], pa % 2 == 1, value % 256, at % 2 == 1);
    hide WithHalf;
  }

  /** A word load is its two bytes. */
  lemma WordIsTwoBytes(ram: seq<u16>, pa: nat)
    requires IsRam(ram) && pa < PA_LIMIT && pa % 2 == 0
    ensures Loaded(ram, pa, false) == ByteAt(ram, pa) + ByteAt(ram, pa + 1) * 256
  {
    assert (pa + 1) / 2 == pa / 2 && (pa + 1) % 2 == 1;
  }
}
