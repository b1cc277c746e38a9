/** The TM11 tape controller: whole records between memory and a tape image, and movement over them. */
module Tm11 {
  import opened Words
  import opened Bytes
  import opened Memory
  import opened Unibus
  import opened TapeImage
  import opened Csr

  const BASE_NS: nat := 4_000_000
  const BYTE_NS: nat := 100

  const UNLOAD: nat := 0
  const READ: nat := 1
  const WRITE: nat := 2
  const WREOF: nat := 3
  const SPACEF: nat := 4
  const SPACER: nat := 5
  const WREXT: nat := 6
  const REWIND: nat := 7

  const NO_LENGTH: nat := 0xFFFF_FFFF

  /** The command function, bits 3:1. */
  function Function(cmd: bv16): (f: nat)
    ensures f < 8
  {
    ((cmd >> 1) & 7) as nat
  }

  /** Address bits 17:16. */
  function Extension(cmd: bv16): (e: nat)
    ensures e < 4
  {
    ((cmd >> 4) & 3) as nat
  }

  function Commanded(cmd: bv16, value: bv16): (c: bv16)
    ensures Done(c) == Done(cmd) && Enabled(c) == Enabled(value)
  {
    (cmd & 0x1281) | (value & 0xED7E)
  }

  /** The function and address bits are not done's, and a program writes them all. */
  lemma DoneApart(cmd: bv16)
    ensures Function(WithoutDone(cmd)) == Function(cmd) && Extension(WithoutDone(cmd)) == Extension(cmd)
    ensures Function(WithDone(cmd)) == Function(cmd) && Extension(WithDone(cmd)) == Extension(cmd)
  {
    assert ((cmd & 0xFF7F) >> 1) & 7 == (cmd >> 1) & 7 && ((cmd & 0xFF7F) >> 4) & 3 == (cmd >> 4) & 3;
    assert ((cmd | 0x80) >> 1) & 7 == (cmd >> 1) & 7 && ((cmd | 0x80) >> 4) & 3 == (cmd >> 4) & 3;
  }

  lemma CommandedFields(cmd: bv16, value: bv16)
    ensures Function(Commanded(cmd, value)) == Function(value) && Extension(Commanded(cmd, value)) == Extension(value)
  {
    var c := (cmd & 0x1281) | (value & 0xED7E);
    assert (c >> 1) & 7 == (value >> 1) & 7 && (c >> 4) & 3 == (value >> 4) & 3;
  }

  predicate InitBit(value: bv16) { value & 0x1000 != 0 }

  function Word(value: bv16): u16 { value as int }

  /** The stored status bits; the rest of MTS is computed when read. */
  datatype Status = Status(ill: bool, eof: bool, rle: bool, rew: bool, bot: bool)

  const CLEAR: Status := Status(false, false, false, false, false)

  datatype Register = Mtc | Mtbrc | Mtcma | Mtd | Other

  lemma ByteStored(ram: seq<u16>, ram': seq<u16>, pa: nat, b: byte)
    requires IsRam(ram) && pa < MEM_WORDS * 2
    requires ram' == ram[pa / 2 := WithHalf(ram[pa / 2], pa % 2 == 1, b)]
    ensures ram' == Stored(ram, pa, true, b)
  {
  }

  lemma DeliveredOneMore(ram: seq<u16>, m: Map, xma: nat, bytes: seq<byte>, b: byte)
    requires IsRam(ram) && IsMap(m)
    ensures Delivered(ram, m, xma, bytes + [b]) ==
            Stored(Delivered(ram, m, xma, bytes), Address(m, xma, |bytes|), true, b)
  {
    assert (bytes + [b])[..|bytes|] == bytes;
    hide Stored, Address;
  }

  function LaidData(data: seq<byte>): (s: seq<byte>)
    ensures |s| == Padded(|data|)
  {
    PaddedByOne(|data|);
    data + if |data| % 2 == 1 then [0] else []
  }

  lemma WrittenIs(data: seq<byte>)
    ensures var word: seq<byte> := [Low(|data|), Mid(|data|), 0, 0];
            Written(data) == word + LaidData(data) + word
  {
    hide Low, Mid;
  }

  lemma PadLaid(t: seq<byte>, at: nat, odd: bool)
    requires at <= |t| && (odd ==> at < |t|)
    ensures Overlaid(t, at, if odd then [0] else []) == if odd then t[at := 0] else t
  {
  }

  // Positions are 32 bits wide.

  function Low16(n: nat): u16 { n % 0x1_0000 }

  function Forward(pos: nat, n: nat): (p: nat)
    ensures pos + n < LIMIT ==> p == pos + n
  {
    (pos + n) % LIMIT
  }

  function Backward(pos: nat, n: nat): (p: nat)
    ensures n <= pos < LIMIT ==> p == pos - n
  {
    (pos - n) % LIMIT
  }

  predicate HasLength(x: Item, n: nat) {
    if x.Mark? then n == 0 else n == |x.data| && 0 < n < NO_LENGTH
  }

  /** What a length read at a position says of the item there. */
  lemma ItemByLength(t: seq<byte>, pos: nat, n: nat)
    requires |t| + 0x2_0000 <= LIMIT && pos <= |t|
    requires if pos + 4 <= |t| then n == LengthWord(t, pos) else n == NO_LENGTH
    ensures ItemAt(t, pos).Here? ==> HasLength(ItemAt(t, pos).item, n) && pos + Size(ItemAt(t, pos).item) <= |t|
    ensures ItemAt(t, pos).EndOfMedium? ==> n == NO_LENGTH
  {
    hide LengthWord, Padded;
  }

  /** The registers a tape movement can change. */
  datatype TapeRegs = TapeRegs(pos: nat, sta: Status, bc: u16, ca: u16)

  /** How many bytes a read takes of what lies at a given length word. */
  function LengthTaken(length: nat, cbc: nat): nat {
    if length == 0 || length == NO_LENGTH then 0 else if length < cbc then length else cbc
  }

  function ReadRegs(r: TapeRegs, length: nat, xma: nat, cbc: nat): TapeRegs {
    if length == 0 then r.(sta := r.sta.(eof := true), pos := Forward(r.pos, 4))
    else if length == NO_LENGTH then r.(sta := r.sta.(ill := true))
    else
      var n := LengthTaken(length, cbc);
      TapeRegs(Forward(r.pos, RecordSize(length)), r.sta.(rle := r.sta.rle || length > cbc),
               Low16(r.bc + n), Low16(xma + n))
  }

  /** The bytes a read of cbc takes of an item. */
  function Taken(x: Item, cbc: nat): (bytes: seq<byte>) {
    match x
    case Mark => []
    case Record(data) => if |data| < cbc then data else data[..cbc]
  }

  /** The registers once a read has passed an item: the counters by what was taken, the position by all of it,
      and a length error for a record longer than the request. */
  function PastItem(r: TapeRegs, x: Item, xma: nat, cbc: nat): (r': TapeRegs)
    ensures r'.pos == r.pos + Size(x)
  {
    match x
    case Mark => r.(sta := r.sta.(eof := true), pos := r.pos + 4)
    case Record(data) =>
      var n := |Taken(x, cbc)|;
      TapeRegs(r.pos + RecordSize(|data|), r.sta.(rle := r.sta.rle || |data| > cbc),
               Low16(r.bc + n), Low16(xma + n))
  }

  /** A read from r, with what lies there: the item is taken and passed, or the end of the medium reported. */
  predicate ReadsItem(t: seq<byte>, r: TapeRegs, xma: nat, cbc: nat, m: Map, ram: seq<u16>, r': TapeRegs,
                      ram': seq<u16>)
    requires IsRam(ram) && IsMap(m)
  {
    var found := ItemAt(t, r.pos);
    && (found.Here? ==> r' == PastItem(r, found.item, xma, cbc)
                        && ram' == Delivered(ram, m, xma, Taken(found.item, cbc)))
    && (found.EndOfMedium? ==> r' == r.(sta := r.sta.(ill := true)) && ram' == ram)
  }

  /** The length word at a position tells a read all it needs of the item there. */
  lemma ReadMeans(t: seq<byte>, length: nat, r: TapeRegs, xma: nat, cbc: nat, m: Map, ram: seq<u16>,
                  r': TapeRegs, ram': seq<u16>)
    requires |t| + 0x2_0000 <= LIMIT && r.pos <= |t| && IsRam(ram) && IsMap(m)
    requires if r.pos + 4 <= |t| then length == LengthWord(t, r.pos) else length == NO_LENGTH
    requires r' == ReadRegs(r, length, xma, cbc) && (length == NO_LENGTH ==> ram' == ram)
    requires var from, n := r.pos + 4, LengthTaken(length, cbc);
             from + n <= |t| < LIMIT ==> ram' == Delivered(ram, m, xma, t[from..from + n])
    ensures ReadsItem(t, r, xma, cbc, m, ram, r', ram')
  {
    hide *;
    ItemByLength(t, r.pos, length);
    var found := ItemAt(t, r.pos);
    if found.Here? {
      RegsPast(r, found.item, length, xma, cbc);
      ReadDelivers(t, r.pos, length, xma, cbc, m, ram, ram');
    } else if found.EndOfMedium? {
      EndRegs(r, length, xma, cbc);
    }
    MakeReads(t, r, xma, cbc, m, ram, r', ram');
  }

  lemma MakeReads(t: seq<byte>, r: TapeRegs, xma: nat, cbc: nat, m: Map, ram: seq<u16>, r': TapeRegs, ram': seq<u16>)
    requires IsRam(ram) && IsMap(m)
    requires ItemAt(t, r.pos).Here? ==>
               && r' == PastItem(r, ItemAt(t, r.pos).item, xma, cbc)
               && ram' == Delivered(ram, m, xma, Taken(ItemAt(t, r.pos).item, cbc))
    requires ItemAt(t, r.pos).EndOfMedium? ==> r' == r.(sta := r.sta.(ill := true)) && ram' == ram
    ensures ReadsItem(t, r, xma, cbc, m, ram, r', ram')
  {
    hide ItemAt, PastItem, Taken, Delivered;
  }

  lemma ReadDelivers(t: seq<byte>, pos: nat, length: nat, xma: nat, cbc: nat, m: Map, ram: seq<u16>, ram': seq<u16>)
    requires |t| < LIMIT && IsRam(ram) && IsMap(m)
    requires ItemAt(t, pos).Here? && HasLength(ItemAt(t, pos).item, length) && pos + Size(ItemAt(t, pos).item) <= |t|
    requires var from, n := pos + 4, LengthTaken(length, cbc);
             from + n <= |t| < LIMIT ==> ram' == Delivered(ram, m, xma, t[from..from + n])
    ensures ram' == Delivered(ram, m, xma, Taken(ItemAt(t, pos).item, cbc))
  {
    hide *;
    TakenIsSlice(t, pos, ItemAt(t, pos).item, length, cbc);
  }

  lemma EndRegs(r: TapeRegs, length: nat, xma: nat, cbc: nat)
    ensures length == NO_LENGTH ==> ReadRegs(r, length, xma, cbc) == r.(sta := r.sta.(ill := true))
  {
  }

  lemma RegsPast(r: TapeRegs, x: Item, length: nat, xma: nat, cbc: nat)
    requires HasLength(x, length) && r.pos + Size(x) < LIMIT
    ensures ReadRegs(r, length, xma, cbc) == PastItem(r, x, xma, cbc)
  {
    hide Forward, Low16, Padded;
  }

  lemma TakenIsSlice(t: seq<byte>, pos: nat, x: Item, length: nat, cbc: nat)
    requires ItemAt(t, pos).Here? && ItemAt(t, pos).item == x && HasLength(x, length) && pos + Size(x) <= |t|
    ensures var n := LengthTaken(length, cbc);
            pos + 4 + n <= |t| && t[pos + 4..pos + 4 + n] == Taken(x, cbc)
  {
    if x.Record? {
      RecordSlice(t, pos, LengthTaken(length, cbc));
      assert x.data[..|x.data|] == x.data;
    }
    hide ItemAt;
  }

  lemma NothingDelivered(ram: seq<u16>, m: Map, xma: nat)
    requires IsRam(ram) && IsMap(m)
    ensures Delivered(ram, m, xma, []) == ram
  {
  }

  /** A write from r: a record of the bytes asked for, unless the tape is protected or has no room. */
  predicate WritesRecord(t: seq<byte>, r: TapeRegs, xma: nat, cbc: nat, m: Map, wrp: bool, ram: seq<u16>,
                         r': TapeRegs, t': seq<byte>)
    requires IsRam(ram) && IsMap(m)
  {
    if wrp || r.pos + RecordSize(cbc) > |t| then r' == r.(sta := r.sta.(ill := true)) && t' == t
    else
      && r' == TapeRegs(r.pos + RecordSize(cbc), r.sta, 0, Low16(xma + cbc))
      && t' == Overlaid(t, r.pos, Written(Fetched(ram, m, xma, cbc)))
  }

  predicate WritesMark(t: seq<byte>, r: TapeRegs, wrp: bool, r': TapeRegs, t': seq<byte>) {
    if wrp || r.pos + 4 > |t| then r' == r.(sta := r.sta.(ill := true)) && t' == t
    else r' == r.(pos := r.pos + 4) && t' == Overlaid(t, r.pos, [0, 0, 0, 0])
  }

  /** Spacing forward passes one item, counting records, or reports the end of the medium. */
  predicate SpacesForward(t: seq<byte>, r: TapeRegs, r': TapeRegs) {
    match ItemAt(t, r.pos)
    case Here(x) =>
      && r'.pos == r.pos + Size(x) && r'.ca == r.ca
      && (if x.Mark? then r'.sta == r.sta.(eof := true) && r'.bc == r.bc
          else r'.sta == r.sta && r'.bc == Low16(r.bc + 1))
    case EndOfMedium => r' == r.(sta := r.sta.(ill := true))
    case Unreadable => true
  }

  /** Spacing back goes by the length that ends before the position, and not past the start. */
  predicate SpacesBack(t: seq<byte>, r: TapeRegs, r': TapeRegs) {
    && (r.pos == 0 ==> r' == r.(sta := r.sta.(bot := true)))
    && (4 <= r.pos <= |t| && SpacedBack(t, r.pos) >= 0 ==> r' == r.(pos := SpacedBack(t, r.pos)))
  }

  predicate Writes(func: nat) {
    func == WRITE || func == WREXT || func == WREOF
  }

  /** What executing a command does to the image, to memory and to the registers, from a position on the image. */
  predicate Executes(func: nat, t: seq<byte>, ram: seq<u16>, r: TapeRegs, xma: nat, cbc: nat, m: Map, wrp: bool,
                     t': seq<byte>, ram': seq<u16>, r': TapeRegs)
    requires IsRam(ram) && IsMap(m)
  {
    && (func != READ ==> ram' == ram) && (!Writes(func) ==> t' == t)
    && (if func == READ then ReadsItem(t, r, xma, cbc, m, ram, r', ram')
        else if func == WRITE || func == WREXT then WritesRecord(t, r, xma, cbc, m, wrp, ram, r', t')
        else if func == WREOF then WritesMark(t, r, wrp, r', t')
        else if func == SPACEF then SpacesForward(t, r, r')
        else if func == SPACER then SpacesBack(t, r, r')
        else r' == r)
  }

  class Drive {
    var cmd: bv16
    var sta: Status
    var bc: u16
    var ca: u16
    var db: u16
    var attached: bool
    var wrp: bool
    var pos: nat
    var busy: bool
    var doneNs: nat
    var pending: bool
    var ubMap: Map
    const tape: array<byte>
    const mem: array<u16>

    predicate Shape()
      reads this
    {
      mem.Length == MEM_WORDS && IsMap(ubMap)
    }

    /** Positioned within an image short enough that no position sum reaches 2^32. */
    predicate OnTape()
      reads this
    {
      Shape() && pos <= tape.Length && tape.Length + 0x2_0000 <= LIMIT
    }

    /** A request stands only for a controller that is done and enabled, and one that is not done has its
        completion scheduled. */
    predicate Safe()
      reads this
    {
      (pending ==> Asserts(cmd)) && (busy <==> !Done(cmd))
    }

    /** The 18-bit buffer address, and the byte count the two's-complement counter asks for. */
    function Buffer(): (xma: nat)
      reads this
      ensures xma < UBA_LIMIT
    {
      Extension(cmd) * 0x1_0000 + ca
    }

    function Count(): (n: nat)
      reads this
      ensures n < 0x1_0000 && (n + bc) % 0x1_0000 == 0
    {
      (0x1_0000 - bc) % 0x1_0000
    }

    // ---- the image, with 32-bit positions -----------------------------------------------------------------

    /** A byte of the image; beyond its end the C code reads whatever is there. */
    method TapeByte(at: nat) returns (b: byte)
      ensures at < tape.Length && at < LIMIT ==> b == tape[at]
    {
      if at % LIMIT < tape.Length {
        b := tape[at % LIMIT];
      } else {
        b := *;
      }
    }

    method PutByte(at: nat, b: byte)
      modifies tape
      ensures at < tape.Length && at < LIMIT ==> tape[..] == old(tape[..])[at := b]
    {
      if at % LIMIT < tape.Length {
        tape[at % LIMIT] := b;
      }
    }

    /** tap_len_at */
    method LengthAt(at: nat) returns (n: nat)
      ensures n < LIMIT
      ensures at + 4 <= tape.Length < LIMIT ==> n == LengthWord(tape[..], at)
      ensures tape.Length < at + 4 < LIMIT ==> n == NO_LENGTH
    {
      if (at + 4) % LIMIT > tape.Length {
        return NO_LENGTH;
      }
      var b0 := TapeByte(at);
      var b1 := TapeByte(at + 1);
      var b2 := TapeByte(at + 2);
      var b3 := TapeByte(at + 3);
      n := WordOf(b0, b1, b2, b3);
    }

    method PutLength(at: nat, n: nat)
      requires n < 0x1_0000
      modifies tape
      ensures at + 4 <= tape.Length < LIMIT ==> tape[..] == Overlaid(old(tape[..]), at, [Low(n), Mid(n), 0, 0])
    {
      PutByte(at, Low(n));
      PutByte(at + 1, Mid(n));
      PutByte(at + 2, 0);
      PutByte(at + 3, 0);
    }

    /** From the tape to memory. */
    method CopyToMemory(from: nat, xma: nat, n: nat)
      requires Shape()
      modifies mem
      ensures from + n <= tape.Length < LIMIT ==> mem[..] == Delivered(old(mem[..]), ubMap, xma, tape[from..from + n])
    {
      var i := 0;
      while i < n
        invariant i <= n
        invariant from + n <= tape.Length < LIMIT ==>
                    mem[..] == Delivered(old(mem[..]), ubMap, xma, tape[from..from + i])
      {
        var b := TapeByte(from + i);
        ghost var ram := mem[..];
        WriteByte(mem, Address(ubMap, xma, i), b);
        ByteStored(ram, mem[..], Address(ubMap, xma, i), b);
        if from + n <= tape.Length < LIMIT {
          assert tape[from..from + (i + 1)] == tape[from..from + i] + [b];
          DeliveredOneMore(old(mem[..]), ubMap, xma, tape[from..from + i], b);
        }
        hide Delivered, Stored, Address, WithHalf;
        i := i + 1;
      }
    }

    /** From memory to the tape. */
    method CopyToTape(at: nat, xma: nat, n: nat)
      requires Shape()
      modifies tape
      ensures at + n <= tape.Length < LIMIT ==> tape[..] == Overlaid(old(tape[..]), at, Fetched(mem[..], ubMap, xma, n))
    {
      var i := 0;
      while i < n
        invariant i <= n
        invariant at + n <= tape.Length < LIMIT ==>
                    tape[..] == Overlaid(old(tape[..]), at, Fetched(mem[..], ubMap, xma, i))
      {
        var b := ReadByte(mem, Address(ubMap, xma, i));
        if at + n <= tape.Length < LIMIT {
          OverlaidOneMore(tape[..], at, Fetched(mem[..], ubMap, xma, i), b);
          OverlaidOneMore(old(tape[..]), at, Fetched(mem[..], ubMap, xma, i), b);
          assert Fetched(mem[..], ubMap, xma, i + 1) == Fetched(mem[..], ubMap, xma, i) + [b];
        }
        PutByte(at + i, b);
        i := i + 1;
      }
    }

    // ---- commands -----------------------------------------------------------------------------------------

    function Regs(): TapeRegs
      reads this
    {
      TapeRegs(pos, sta, bc, ca)
    }

    /** Read: a record goes to memory, as much of it as was asked for, and the tape moves past all of it; a mark
        is passed, and the end of the medium is not. */
    method ReadRecord()
      requires Shape()
      modifies `sta, `pos, `bc, `ca, mem
      ensures Shape()
      ensures old(OnTape()) ==>
                ReadsItem(tape[..], old(Regs()), old(Buffer()), old(Count()), ubMap, old(mem[..]), Regs(), mem[..])
    {
      ghost var t, r, xma, cbc, ram, on := tape[..], Regs(), Buffer(), Count(), mem[..], OnTape();
      assert on ==> |t| + 0x2_0000 <= LIMIT && r.pos <= |t|;
      var length := LengthAt(pos);
      hide *;
      ReadByLength(length);
      assert tape[..] == t;
      if on {
        ReadMeans(t, length, r, xma, cbc, ubMap, ram, Regs(), mem[..]);
      }
    }

    /** A zero length is a mark, no length the end of the medium. */
    method ReadByLength(length: nat)
      requires Shape()
      modifies `sta, `pos, `bc, `ca, mem
      ensures Shape() && Regs() == ReadRegs(old(Regs()), length, old(Buffer()), old(Count()))
      ensures length == NO_LENGTH ==> mem[..] == old(mem[..])
      ensures var from, n := old(pos) + 4, LengthTaken(length, old(Count()));
              from + n <= tape.Length < LIMIT ==>
                mem[..] == Delivered(old(mem[..]), ubMap, old(Buffer()), tape[from..from + n])
    {
      var xma, cbc := Buffer(), Count();
      hide Low16, Delivered, Forward, Padded;
      if length == 0 {
        sta := sta.(eof := true);
        NothingDelivered(mem[..], ubMap, xma);
        assert pos + 4 > tape.Length || tape[pos + 4..pos + 4] == [];
        pos := Forward(pos, 4);
        return;
      }
      if length == NO_LENGTH {
        sta := sta.(ill := true);
        NothingDelivered(mem[..], ubMap, xma);
        assert pos + 4 > tape.Length || tape[pos + 4..pos + 4] == [];
        return;
      }
      var n := if length < cbc then length else cbc;
      if length > cbc {
        sta := sta.(rle := true);
      }
      CopyToMemory(pos + 4, xma, n);
      ca := Low16(xma + n);
      bc := Low16(bc + n);
      pos := Forward(pos, RecordSize(length));
    }

    /** Write: a record of the bytes asked for, unless the tape is protected or has no room. */
    method WriteRecord()
      requires Shape()
      modifies `sta, `pos, `bc, `ca, tape
      ensures Shape()
      ensures old(OnTape()) ==>
                WritesRecord(old(tape[..]), old(Regs()), old(Buffer()), old(Count()), ubMap, wrp, mem[..], Regs(),
                             tape[..])
    {
      var xma, cbc := Buffer(), Count();
      hide Low16, Forward, Padded, Written, Fetched, Extension;
      var need := Forward(pos, RecordSize(cbc));
      if wrp || need > tape.Length {
        sta := sta.(ill := true);
        return;
      }
      LayRecord(xma, cbc);
      ca := Low16(xma + cbc);
      bc := 0;
      pos := need;
    }

    method LayRecord(xma: nat, n: nat)
      requires Shape() && n < 0x1_0000
      modifies tape
      ensures OnTape() && pos + RecordSize(n) <= tape.Length ==>
                tape[..] == Overlaid(old(tape[..]), pos, Written(Fetched(mem[..], ubMap, xma, n)))
    {
      ghost var fits := OnTape() && pos + RecordSize(n) <= tape.Length;
      ghost var t, at := tape[..], pos;
      ghost var body := LaidData(Fetched(mem[..], ubMap, xma, n));
      ghost var word: seq<byte> := [Low(n), Mid(n), 0, 0];
      assert fits ==> at + 4 + Padded(n) + 4 <= tape.Length < LIMIT;
      WrittenIs(Fetched(mem[..], ubMap, xma, n));
      assert Shape();
      hide *;
      PutLength(pos, n);
      assert fits ==> tape[..] == Overlaid(t, at, word);
      LayData(pos + 4, xma, n);
      assert fits ==> tape[..] == Overlaid(Overlaid(t, at, word), at + |word|, body);
      if fits {
        OverlaidTwice(t, at, word, body);
        OverlaidTwice(t, at, word + body, word);
      }
      PutLength(pos + 4 + Padded(n), n);
    }

    /** The data and, after an odd number of bytes, one of padding. */
    method LayData(at: nat, xma: nat, n: nat)
      requires Shape()
      modifies tape
      ensures at + Padded(n) <= tape.Length < LIMIT ==>
                tape[..] == Overlaid(old(tape[..]), at, LaidData(Fetched(mem[..], ubMap, xma, n)))
    {
      PaddedByOne(n);
      CopyToTape(at, xma, n);
      ghost var copied, data := tape[..], Fetched(mem[..], ubMap, xma, n);
      if n % 2 == 1 {
        PutByte(at + n, 0);
      }
      if at + Padded(n) <= tape.Length < LIMIT {
        PadLaid(copied, at + n, n % 2 == 1);
        OverlaidTwice(old(tape[..]), at, data, if n % 2 == 1 then [0] else []);
      }
      hide Fetched, Overlaid;
    }

    method WriteMark()
      requires Shape()
      modifies `sta, `pos, tape
      ensures Shape()
      ensures old(OnTape()) ==> WritesMark(old(tape[..]), old(Regs()), wrp, Regs(), tape[..])
    {
      if wrp || Forward(pos, 4) > tape.Length {
        sta := sta.(ill := true);
        return;
      }
      PutLength(pos, 0);
      pos := Forward(pos, 4);
    }

    method SpaceForward()
      requires Shape()
      modifies `sta, `pos, `bc
      ensures Shape()
      ensures old(OnTape()) ==> SpacesForward(tape[..], old(Regs()), Regs())
    {
      var length := LengthAt(pos);
      if OnTape() {
        ItemByLength(tape[..], pos, length);
      }
      hide Low16, Forward, LengthWord, Padded, ItemAt;
      if length == 0 {
        sta := sta.(eof := true);
        pos := Forward(pos, 4);
      } else if length == NO_LENGTH {
        sta := sta.(ill := true);
      } else {
        pos := Forward(pos, RecordSize(length));
        bc := Low16(bc + 1);
      }
    }

    method SpaceReverse()
      requires Shape()
      modifies `sta, `pos
      ensures Shape()
      ensures old(OnTape()) ==> SpacesBack(tape[..], old(Regs()), Regs())
    {
      if pos == 0 {
        sta := sta.(bot := true);
        return;
      }
      hide Backward, LengthWord, Padded;
      var length := LengthAt(Backward(pos, 4));
      if length == 0 {
        pos := Backward(pos, 4);
      } else {
        pos := Backward(pos, RecordSize(length));
      }
    }

    // ---- the command protocol -----------------------------------------------------------------------------

    constructor (mem: array<u16>, tape: array<byte>, attached: bool, wrp: bool)
      requires mem.Length == MEM_WORDS
      ensures Shape() && Safe() && !pending && !busy && pos == 0
      ensures this.mem == mem && this.tape == tape && this.attached == attached && this.wrp == wrp
    {
      this.mem, this.tape, this.attached, this.wrp := mem, tape, attached, wrp;
      cmd, sta, bc, ca, db, pos := READY, CLEAR, 0, 0, 0, 0;
      busy, doneNs, pending := false, 0, false;
      ubMap := Map(false, seq(32, _ => 0));
    }

    /** The processor's grant drops the request. */
    method Acknowledge()
      requires Shape() && Safe()
      modifies `pending
      ensures Shape() && Safe() && !pending
    {
      pending := false;
    }

    /** Bus INIT */
    method Reset()
      modifies `cmd, `sta, `busy, `pending
      ensures Safe() && !pending && !busy && cmd == READY && sta == CLEAR
    {
      cmd, sta, busy, pending := READY, CLEAR, false, false;
    }

    method SetDone()
      modifies `busy, `cmd, `pending
      ensures !busy && cmd == WithDone(old(cmd)) && pending == Enabled(cmd)
    {
      busy := false;
      cmd := WithDone(cmd);
      pending := Enabled(cmd);
    }

    /** tm_execute: every command ends with the controller done. */
    method Execute(func: nat)
      requires Shape()
      modifies `sta, `pos, `bc, `ca, `busy, `cmd, `pending, mem, tape
      ensures Shape() && !busy && Done(cmd) && Enabled(cmd) == Enabled(old(cmd)) && pending == Enabled(cmd)
      ensures (func != READ ==> mem[..] == old(mem[..])) && (!Writes(func) ==> tape[..] == old(tape[..]))
      ensures old(OnTape()) ==>
                Executes(func, old(tape[..]), old(mem[..]), old(Regs()), old(Buffer()), old(Count()), ubMap, wrp,
                         tape[..], mem[..], Regs())
    {
      hide ReadsItem, WritesRecord, WritesMark, SpacesForward, SpacesBack, Extension;
      if func == READ {
        ReadRecord();
      } else if func == WRITE || func == WREXT {
        WriteRecord();
      } else if func == WREOF {
        WriteMark();
      } else if func == SPACEF {
        SpaceForward();
      } else if func == SPACER {
        SpaceReverse();
      }
      SetDone();
    }

    /** A command is executed when its time has come, and not before; a rewind takes the tape to its start. */
    method Poll(now: nat)
      requires Shape() && Safe()
      modifies `sta, `pos, `bc, `ca, `busy, `cmd, `pending, mem, tape
      ensures Shape() && Safe()
      ensures !(old(busy) && now >= doneNs) ==>
                && busy == old(busy) && cmd == old(cmd) && pending == old(pending) && Regs() == old(Regs())
                && mem[..] == old(mem[..]) && tape[..] == old(tape[..])
      ensures old(busy) && now >= doneNs ==>
                var func := Function(old(cmd));
                && !busy && Enabled(cmd) == Enabled(old(cmd)) && pending == Enabled(cmd)
                && (if func == REWIND || func == UNLOAD
                    then && Regs() == old(Regs()).(pos := 0, sta := old(sta).(rew := false))
                         && mem[..] == old(mem[..]) && tape[..] == old(tape[..])
                    else old(OnTape()) ==>
                      Executes(func, old(tape[..]), old(mem[..]), old(Regs()), old(Buffer()), old(Count()), ubMap, wrp,
                               tape[..], mem[..], Regs()))
    {
      if !busy || now < doneNs {
        return;
      }
      hide Executes, Function, Extension;
      var func := Function(cmd);
      if func == REWIND || func == UNLOAD {
        pos := 0;
        sta := sta.(rew := false);
        SetDone();
        return;
      }
      Execute(func);
    }

    /** With no tape, or a write to a protected one, a command ends at once. */
    predicate Takes(func: nat)
      reads this
    {
      attached && !(Writes(func) && wrp)
    }

    /** tm_go */
    method Start(now: nat)
      requires Shape() && Done(cmd) && !busy
      modifies `sta, `cmd, `pending, `busy, `doneNs
      ensures Shape() && Safe() && Enabled(cmd) == Enabled(old(cmd))
      ensures Function(cmd) == Function(old(cmd)) && Extension(cmd) == Extension(old(cmd))
      ensures if Takes(Function(cmd))
              then busy && !pending && doneNs == now + BASE_NS + Count() * BYTE_NS
                   && sta == CLEAR.(rew := Function(cmd) == REWIND)
              else !busy && pending == Enabled(cmd) && sta == old(sta).(ill := true)
    {
      DoneApart(cmd);
      hide Function, Extension;
      var func := Function(cmd);
      if !attached || (Writes(func) && wrp) {
        sta := sta.(ill := true);
        SetDone();
        return;
      }
      sta := CLEAR.(rew := func == REWIND);
      cmd := WithoutDone(cmd);
      pending := false;
      busy := true;
      doneNs := now + BASE_NS + Count() * BYTE_NS;
    }

    method WriteCommand(value: bv16, now: nat)
      requires Shape() && Safe()
      modifies `sta, `bc, `ca, `db, `cmd, `pending, `busy, `doneNs
      ensures Shape() && Safe()
      ensures busy && !old(busy) ==> Go(value)
      ensures old(busy) && !busy ==> InitBit(value)
      ensures old(busy) && busy ==> doneNs == old(doneNs)
      ensures InitBit(value) ==> !busy && !pending && cmd == 0x80 && Regs() == TapeRegs(pos, CLEAR, 0, 0)
      ensures !InitBit(value) ==>
                && bc == old(bc) && ca == old(ca) && Enabled(cmd) == Enabled(value)
                && Function(cmd) == Function(value) && Extension(cmd) == Extension(value)
      ensures !InitBit(value) && !Go(value) ==>
                && Done(cmd) == Done(old(cmd)) && sta == old(sta)
                && pending == (Enabled(value) && (old(pending) || (Done(cmd) && !Enabled(old(cmd)))))
      ensures !InitBit(value) && Go(value) && !old(busy) ==>
                if attached && !(wrp && Function(value) in {2, 3, 6})
                then busy && !pending && doneNs == now + 4_000_000 + Count() * 100
                     && sta == CLEAR.(rew := Function(value) == REWIND)
                else !busy && pending == Enabled(value) && sta == old(sta).(ill := true)
    {
      hide Commanded, Flags, Done, Enabled, Function, InitBit, Extension;
      if InitBit(value) {
        sta, bc, ca, db := CLEAR, 0, 0, 0;
        Reset();
        return;
      }
      if !Enabled(value) {
        pending := false;
      } else if Flags(cmd) == 0x80 {
        pending := true;
      }
      CommandedFields(cmd, value);
      cmd := Commanded(cmd, value);
      if Done(cmd) && Go(value) {
        Start(now);
      }
    }

    method Write(reg: Register, value: bv16, now: nat)
      requires Shape() && Safe()
      modifies `sta, `bc, `ca, `db, `cmd, `pending, `busy, `doneNs
      ensures Shape() && Safe()
      ensures reg != Mtc ==> && cmd == old(cmd) && pending == old(pending) && busy == old(busy) && sta == old(sta)
                             && bc == (if reg == Mtbrc then Word(value) else old(bc))
                             && ca == (if reg == Mtcma then Word(value) else old(ca))
      ensures reg == Mtc && !InitBit(value) && Go(value) && !old(busy)
              && attached && !(wrp && Function(value) in {2, 3, 6}) ==>
                && busy && doneNs == now + 4_000_000 + Count() * 100 && bc == old(bc) && ca == old(ca)
                && Function(cmd) == Function(value) && Extension(cmd) == Extension(value)
                && sta == CLEAR.(rew := Function(value) == REWIND)
    {
      hide Function, Extension, InitBit, Word;
      match reg
      case Mtc => WriteCommand(value, now);
      case Mtbrc => bc := Word(value);
      case Mtcma => ca := Word(value);
      case Mtd => db := Word(value & 0xFF);
      case Other =>
    }
  }

  lemma RecordSlice(t: seq<byte>, at: nat, n: nat)
    ensures ItemAt(t, at).Here? && ItemAt(t, at).item.Record? && n <= |ItemAt(t, at).item.data| ==>
              at + 4 + n <= |t| && ItemAt(t, at).item.data[..n] == t[at + 4..at + 4 + n]
  {
    var x := ItemAt(t, at);
    hide LengthWord, Padded;
    if x.Here? && x.item.Record? && n <= |x.item.data| {
      var length := |x.item.data|;
      NestedSlice(t, at + 4, length, 0, n);
    }
  }
}
