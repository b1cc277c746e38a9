/** Runs of tape commands: what writing, spacing and reading leave of each other. */
module TapeRuns {
  import opened Words
  import opened Bytes
  import opened Memory
  import opened Unibus
  import opened TapeImage
  import opened Csr
  import opened Tm11

  // ---- moving over records ------------------------------------------------------------------------------------

  /** Space reverse undoes a space forward over a record or a mark. */
  method SpaceForthAndBack(d: Drive)
    requires d.OnTape() && ItemAt(d.tape[..], d.pos).Here?
    modifies d, d.mem, d.tape
    ensures d.pos == old(d.pos) && d.tape[..] == old(d.tape[..]) && d.mem[..] == old(d.mem[..])
  {
    ghost var t, p := d.tape[..], d.pos;
    d.Execute(SPACEF);
    assert d.tape[..] == t;
    SpacingBackInverts(t, p, d.pos);
    StillOnTape(t, p, d.pos);
    hide ItemAt, SpacedBack;
    d.Execute(SPACER);
  }

  lemma StillOnTape(t: seq<byte>, p: nat, at: nat)
    requires Precedes(t, p, at)
    ensures 4 <= at <= |t|
  {
    ItemEnds(t, p, at);
  }

  /** On an image that parses as records and marks, reading and spacing either way go from boundary to boundary. */
  method MoveKeepsBoundary(d: Drive, func: nat)
    requires d.OnTape() && Parses(d.tape[..], 0) && IsBoundary(d.tape[..], d.pos)
    requires func in {READ, SPACEF, SPACER}
    modifies d, d.mem, d.tape
    ensures d.OnTape() && d.tape[..] == old(d.tape[..]) && IsBoundary(d.tape[..], d.pos)
  {
    ghost var t, p, xma, n := d.tape[..], d.pos, d.Buffer(), d.Count();
    ghost var ram, r := d.mem[..], d.Regs();
    hide Executes, ItemAt, IsBoundary, Parses;
    d.Execute(func);
    MovesOver(func, t, ram, r, xma, n, d.ubMap, d.wrp, d.mem[..], d.Regs());
  }

  lemma MovesOver(func: nat, t: seq<byte>, ram: seq<u16>, r: TapeRegs, xma: nat, n: nat, m: Map, wrp: bool,
                  ram': seq<u16>, r': TapeRegs)
    requires IsRam(ram) && IsMap(m) && Executes(func, t, ram, r, xma, n, m, wrp, t, ram', r')
    requires func in {READ, SPACEF, SPACER} && Parses(t, 0) && IsBoundary(t, r.pos) && r.pos <= |t|
    ensures IsBoundary(t, r'.pos) && r'.pos <= |t|
  {
    ParsesFromBoundary(t, r.pos);
    if func == SPACER {
      if r.pos != 0 {
        var back := BoundaryBefore(t, r.pos);
      }
    } else if ItemAt(t, r.pos).Here? {
      BoundaryAfter(t, r.pos);
      ItemEnds(t, r.pos, r.pos + Size(ItemAt(t, r.pos).item));
    }
    hide ItemAt, IsBoundary, Parses, SpacedBack, Size, Delivered, Precedes;
  }

  /** Writing a record from a boundary, wherever on the tape, ends on a boundary, and every boundary before it
      stands: only what lay ahead is lost. */
  method WriteKeepsBoundary(d: Drive, ghost earlier: nat)
    requires d.OnTape() && !d.wrp && 0 < d.Count() && d.pos + RecordSize(d.Count()) <= d.tape.Length
    requires IsBoundary(d.tape[..], d.pos) && earlier <= d.pos && IsBoundary(d.tape[..], earlier)
    modifies d, d.mem, d.tape
    ensures d.OnTape() && d.pos == old(d.pos) + RecordSize(old(d.Count()))
    ensures IsBoundary(d.tape[..], d.pos) && IsBoundary(d.tape[..], old(d.pos)) && IsBoundary(d.tape[..], earlier)
  {
    ghost var t, p := d.tape[..], d.pos;
    ghost var data := Fetched(d.mem[..], d.ubMap, d.Buffer(), d.Count());
    hide ItemAt, IsBoundary, Written, Overlaid, Fetched, RecordSize, Low16;
    BoundariesStand(t, p, data, earlier);
    d.Execute(WRITE);
  }

  lemma BoundariesStand(t: seq<byte>, p: nat, data: seq<byte>, earlier: nat)
    requires 0 < |data| < 0x1_0000 && p + RecordSize(|data|) <= |t|
    requires IsBoundary(t, p) && earlier <= p && IsBoundary(t, earlier)
    ensures var t' := Overlaid(t, p, Written(data));
            IsBoundary(t', earlier) && IsBoundary(t', p) && IsBoundary(t', p + RecordSize(|data|))
  {
    var t' := Overlaid(t, p, Written(data));
    RecordLaid(t, p, data);
    OverlaidElsewhere(t, p, Written(data), 0, earlier);
    OverlaidElsewhere(t, p, Written(data), 0, p);
    assert Size(Record(data)) == RecordSize(|data|);
    hide ItemAt, IsBoundary, Written, Overlaid, RecordSize;
    BoundaryIsLocal(t, t', earlier);
    BoundaryIsLocal(t, t', p);
    BoundaryAfter(t', p);
  }

  lemma RecordLaid(t: seq<byte>, p: nat, data: seq<byte>)
    requires 0 < |data| < 0x1_0000 && p + RecordSize(|data|) <= |t|
    ensures var t' := Overlaid(t, p, Written(data));
            ItemAt(t', p) == Here(Record(data)) && Precedes(t', p, p + RecordSize(|data|))
  {
    var t' := Overlaid(t, p, Written(data));
    OverlaidThere(t, p, Written(data));
    WrittenReadsBack(t', p, data);
    hide ItemAt, Written;
  }

  // ---- what a program learns from a command ---------------------------------------------------------------------

  /** Read: a mark sets end-of-file only, the end of the medium illegal-command only, and a record neither, but the
      length error if and only if it is longer than asked for. The counter is left asking for what a short record did
      not supply, and the address is that of the next byte. */
  lemma ReadReports(t: seq<byte>, ram: seq<u16>, r: TapeRegs, xma: nat, n: nat, m: Map, t': seq<byte>, ram': seq<u16>,
                    r': TapeRegs)
    requires IsRam(ram) && IsMap(m) && Executes(READ, t, ram, r, xma, n, m, false, t', ram', r')
    requires r.sta == CLEAR && n < 0x1_0000 && (r.bc + n) % 0x1_0000 == 0 && xma % 0x1_0000 == r.ca
    ensures t' == t
    ensures match ItemAt(t, r.pos)
            case Here(Mark) => r'.sta == CLEAR.(eof := true) && r'.bc == r.bc && r'.ca == r.ca && ram' == ram
            case Here(Record(data)) =>
              var short := if |data| < n then n - |data| else 0;
              && r'.sta == CLEAR.(rle := |data| > n) && (r'.bc + short) % 0x1_0000 == 0
              && (r'.ca + short) % 0x1_0000 == (r.ca + n) % 0x1_0000
            case EndOfMedium => r' == r.(sta := CLEAR.(ill := true)) && ram' == ram
            case Unreadable => true
  {
    hide ItemAt, Delivered, PastItem;
    if ItemAt(t, r.pos).Here? {
      match ItemAt(t, r.pos).item
      case Mark =>
        NothingDelivered(ram, m, xma);
        assert r' == r.(sta := r.sta.(eof := true), pos := r.pos + 4) by { PastMark(r, xma, n); }
      case Record(data) => RecordPassed(r, data, xma, n);
    }
  }

  lemma PastMark(r: TapeRegs, xma: nat, n: nat)
    ensures PastItem(r, Mark, xma, n) == r.(sta := r.sta.(eof := true), pos := r.pos + 4)
  {
  }

  lemma RecordPassed(r: TapeRegs, data: seq<byte>, xma: nat, n: nat)
    requires r.sta == CLEAR && n < 0x1_0000 && (r.bc + n) % 0x1_0000 == 0 && xma % 0x1_0000 == r.ca
    ensures var r', short := PastItem(r, Record(data), xma, n), if |data| < n then n - |data| else 0;
            && r'.sta == CLEAR.(rle := |data| > n) && (r'.bc + short) % 0x1_0000 == 0
            && (r'.ca + short) % 0x1_0000 == (r.ca + n) % 0x1_0000
  {
    var taken := if |data| < n then |data| else n;
    Remaining(r.bc, n, taken, 0);
    SameRemainder(r.ca + n, xma / 0x1_0000);
    Remaining(xma, n, taken, r.ca + n);
    hide Low16, RecordSize;
  }

  /** Counting part of the way and then the rest is counting all of it. */
  lemma Remaining(x: nat, n: nat, taken: nat, sum: nat)
    requires taken <= n && (x + n) % 0x1_0000 == sum % 0x1_0000
    ensures (Low16(x + taken) + (n - taken)) % 0x1_0000 == sum % 0x1_0000
  {
    var a := x + taken;
    assert a == a / 0x1_0000 * 0x1_0000 + Low16(a);
    SameRemainder(Low16(a) + (n - taken), a / 0x1_0000);
  }

  lemma SameRemainder(a: nat, k: nat)
    ensures (a + k * 0x1_0000) % 0x1_0000 == a % 0x1_0000
  {
  }

  /** Space forward and reverse: one record or mark passed, the counter one higher for a record and end-of-file set for
      a mark; nothing beyond either end, which illegal-command and beginning-of-tape report. */
  lemma SpaceReports(func: nat, t: seq<byte>, ram: seq<u16>, r: TapeRegs, xma: nat, n: nat, m: Map, wrp: bool,
                     t': seq<byte>, ram': seq<u16>, r': TapeRegs)
    requires IsRam(ram) && IsMap(m) && Executes(func, t, ram, r, xma, n, m, wrp, t', ram', r')
    requires func in {SPACEF, SPACER} && r.sta == CLEAR
    ensures t' == t && ram' == ram
    ensures func == SPACEF ==>
              match ItemAt(t, r.pos)
              case Here(Mark) => r' == r.(sta := CLEAR.(eof := true), pos := r.pos + 4)
              case Here(Record(data)) => r' == r.(bc := (r.bc + 1) % 0x1_0000, pos := r.pos + RecordSize(|data|))
              case EndOfMedium => r' == r.(sta := CLEAR.(ill := true))
              case Unreadable => true
    ensures func == SPACER && r.pos == 0 ==> r' == r.(sta := CLEAR.(bot := true))
  {
    hide ItemAt, SpacedBack;
  }

  /** Writes: the tape is left after what was written, a record of the bytes in memory or a mark, and the counter at
      zero for a record; or, protected or short of room, illegal-command is reported and the tape left alone. */
  lemma WriteReports(func: nat, t: seq<byte>, ram: seq<u16>, r: TapeRegs, xma: nat, n: nat, m: Map, wrp: bool,
                     t': seq<byte>, ram': seq<u16>, r': TapeRegs)
    requires IsRam(ram) && IsMap(m) && Executes(func, t, ram, r, xma, n, m, wrp, t', ram', r')
    requires Writes(func) && r.sta == CLEAR && 0 < n < 0x1_0000 && xma % 0x1_0000 == r.ca
    ensures var item := if func == WREOF then Mark else Record(Fetched(ram, m, xma, n));
            && ram' == ram
            && if wrp || r.pos + Size(item) > |t| then t' == t && r' == r.(sta := CLEAR.(ill := true))
               else && |t'| == |t| && ItemAt(t', r.pos) == Here(item) && Precedes(t', r.pos, r'.pos)
                    && r'.pos == r.pos + Size(item) && r'.sta == CLEAR
                    && (if func == WREOF then r'.bc == r.bc && r'.ca == r.ca
                        else r'.bc == 0 && r'.ca == (r.ca + n) % 0x1_0000)
  {
    hide ItemAt, Written, Overlaid, Fetched, RecordSize, Precedes, ReadsItem, SpacesForward, SpacesBack;
    if func == WREOF {
      if !wrp && r.pos + 4 <= |t| {
        MarkLaid(t, r.pos);
      }
    } else {
      if !wrp && r.pos + RecordSize(n) <= |t| {
        RecordLaid(t, r.pos, Fetched(ram, m, xma, n));
        Remaining(xma, n, n, r.ca + n);
      }
    }
  }

  /** Asked for no bytes, a write lays down two lengths of zero, which read as two marks and not as a record. */
  lemma EmptyWriteReadsAsMarks(t: seq<byte>, ram: seq<u16>, r: TapeRegs, xma: nat, m: Map, t': seq<byte>,
                               ram': seq<u16>, r': TapeRegs)
    requires IsRam(ram) && IsMap(m) && Executes(WRITE, t, ram, r, xma, 0, m, false, t', ram', r')
    requires r.pos + 8 <= |t|
    ensures |t'| == |t| && r'.pos == r.pos + 8
    ensures ItemAt(t', r.pos) == Here(Mark) && ItemAt(t', r.pos + 4) == Here(Mark)
  {
    hide Overlaid, Written, Fetched, ItemAt, LengthWord, ReadsItem, WritesMark, SpacesForward, SpacesBack;
    EmptyRecord(Fetched(ram, m, xma, 0));
    OverlaidThere(t, r.pos, [0, 0, 0, 0, 0, 0, 0, 0]);
    TwoMarks(t', r.pos);
  }

  lemma EmptyRecord(data: seq<byte>)
    requires data == []
    ensures Written(data) == [0, 0, 0, 0, 0, 0, 0, 0]
  {
  }

  lemma TwoMarks(t: seq<byte>, p: nat)
    requires p + 8 <= |t| && t[p..p + 8] == [0, 0, 0, 0, 0, 0, 0, 0]
    ensures ItemAt(t, p) == Here(Mark) && ItemAt(t, p + 4) == Here(Mark)
  {
    var w := t[p..p + 8];
    assert t[p..p + 4] == w[..4] && t[p + 4..p + 8] == w[4..];
    hide LengthWord, ItemAt;
    ZeroLength(t, p);
    ZeroLength(t, p + 4);
    IsMark(t, p);
    IsMark(t, p + 4);
  }

  lemma MarkLaid(t: seq<byte>, p: nat)
    requires p + 4 <= |t|
    ensures var t' := Overlaid(t, p, [0, 0, 0, 0]);
            |t'| == |t| && ItemAt(t', p) == Here(Mark) && Precedes(t', p, p + 4)
  {
    var mark: seq<byte> := [0, 0, 0, 0];
    var t' := Overlaid(t, p, mark);
    OverlaidThere(t, p, mark);
    hide *;
    ZeroLength(t', p);
    IsMark(t', p);
  }

  lemma IsMark(t: seq<byte>, p: nat)
    requires p + 4 <= |t| && LengthWord(t, p) == 0
    ensures ItemAt(t, p) == Here(Mark) && Precedes(t, p, p + 4)
  {
    hide LengthWord;
  }

  lemma ZeroLength(t: seq<byte>, p: nat)
    requires p + 4 <= |t| && t[p..p + 4] == [0, 0, 0, 0]
    ensures LengthWord(t, p) == 0
  {
    var w := t[p..p + 4];
    assert t[p] == w[0] && t[p + 1] == w[1] && t[p + 2] == w[2] && t[p + 3] == w[3];
  }

  // ---- a program's commands -------------------------------------------------------------------------------------

  /** A value of MTC that is a command. */
  predicate Commands(value: bv16, func: nat) {
    !InitBit(value) && Go(value) && Function(value) == func
  }

  /** The command words of the plain functions, octal 3 to 13 and 17. */
  lemma CommandWords()
    ensures Commands(3, READ) && Commands(5, WRITE) && Commands(7, WREOF) && Commands(9, SPACEF) && Commands(11, SPACER)
    ensures Commands(1, UNLOAD) && Commands(13, WREXT) && Commands(15, REWIND)
  {
    assert ((3 as bv16) >> 1) & 7 == 1 && ((5 as bv16) >> 1) & 7 == 2 && ((7 as bv16) >> 1) & 7 == 3;
    assert ((9 as bv16) >> 1) & 7 == 4 && ((11 as bv16) >> 1) & 7 == 5 && ((13 as bv16) >> 1) & 7 == 6;
    assert ((1 as bv16) >> 1) & 7 == 0 && ((15 as bv16) >> 1) & 7 == 7;
  }

  /** The drive, ready for a command. */
  predicate Ready(d: Drive)
    reads d
  {
    d.OnTape() && d.Safe() && !d.busy && d.attached && !d.wrp
  }

  /** The buffer address of a command word and an address register, and the byte count of a counter. */
  function BufferAt(value: bv16, ca: bv16): (xma: nat) {
    Extension(value) * 0x1_0000 + Word(ca)
  }

  /** Its bits 17:16 are bits 5:4 of the command. */
  lemma BufferParts(value: bv16, ca: bv16)
    ensures value & 0x30 == 0x00 ==> BufferAt(value, ca) == ca as int
    ensures value & 0x30 == 0x10 ==> BufferAt(value, ca) == 0x1_0000 + ca as int
    ensures value & 0x30 == 0x20 ==> BufferAt(value, ca) == 0x2_0000 + ca as int
    ensures value & 0x30 == 0x30 ==> BufferAt(value, ca) == 0x3_0000 + ca as int
  {
    ExtensionBits(value);
    hide Extension;
  }

  lemma ExtensionBits(value: bv16)
    ensures value & 0x30 == 0x00 ==> Extension(value) == 0
    ensures value & 0x30 == 0x10 ==> Extension(value) == 1
    ensures value & 0x30 == 0x20 ==> Extension(value) == 2
    ensures value & 0x30 == 0x30 ==> Extension(value) == 3
  {
    var e := (value >> 4) & 3;
    assert e << 4 == value & 0x30;
    if value & 0x30 == 0x00 {
      assert e == 0;
    } else if value & 0x30 == 0x10 {
      assert e == 1;
    } else if value & 0x30 == 0x20 {
      assert e == 2;
    } else {
      assert e == 3;
    }
  }

  function Asked(count: bv16): (n: nat)
    ensures n < 0x1_0000 && (n + count as int) % 0x1_0000 == 0
  {
    (0x1_0000 - Word(count)) % 0x1_0000
  }

  function Took(n: nat): nat { BASE_NS + n * BYTE_NS }

  /** A program sets the counter and the address and gives a command. */
  method Order(d: Drive, value: bv16, count: bv16, ca: bv16, now: nat)
    requires Ready(d) && Commands(value, Function(value)) && !(Writes(Function(value)) && d.wrp)
    modifies d
    ensures d.Shape() && d.Safe() && d.busy && d.attached && !d.wrp && d.ubMap == old(d.ubMap)
    ensures d.Regs() == TapeRegs(old(d.pos), CLEAR.(rew := Function(value) == REWIND), Word(count), Word(ca))
    ensures d.doneNs == now + Took(Asked(count)) && Function(d.cmd) == Function(value)
    ensures d.Buffer() == BufferAt(value, ca) && d.Count() == Asked(count)
  {
    hide Function, Extension, InitBit, Go, Word, Done, Enabled;
    d.Write(Mtbrc, count, now);
    d.Write(Mtcma, ca, now);
    d.Write(Mtc, value, now);
  }

  /** One command as a program gives it, and the wait for its completion. */
  method Command(d: Drive, func: nat, value: bv16, count: bv16, ca: bv16, now: nat)
    requires Ready(d) && Commands(value, func) && READ <= func < REWIND
    modifies d, d.mem, d.tape
    ensures d.Shape() && d.Safe() && !d.busy && d.attached && !d.wrp && d.ubMap == old(d.ubMap)
    ensures Executes(func, old(d.tape[..]), old(d.mem[..]), TapeRegs(old(d.pos), CLEAR, Word(count), Word(ca)),
                     BufferAt(value, ca), Asked(count), d.ubMap, false, d.tape[..], d.mem[..], d.Regs())
  {
    hide Function, Extension, InitBit, Go, Executes, Asked, BufferAt, Word;
    Order(d, value, count, ca, now);
    var wait := d.doneNs;
    assert d.OnTape();
    d.Poll(wait);
  }

  /** Write, space reverse, and read as many bytes into a buffer anywhere, each as a program commands it, whatever
      memory and the map have become before the read: the same bytes arrive and the tape ends where the write left
      it. The buffer read into must not meet itself through the map, and the count must not be zero. */
  method RecordRoundTrip(d: Drive, count: bv16, write: bv16, from: bv16, back: bv16, ram: seq<u16>, ubMap: Map,
                         read: bv16, to: bv16, now: nat)
    requires Ready(d) && 0 < Asked(count) && d.pos + RecordSize(Asked(count)) <= d.tape.Length
    requires Commands(write, WRITE) && Commands(back, SPACER) && Commands(read, READ)
    requires IsRam(ram) && IsMap(ubMap) && NoAlias(ubMap, BufferAt(read, to), Asked(count))
    modifies d, d.mem, d.tape
    ensures d.pos == old(d.pos) + RecordSize(Asked(count)) && d.Shape()
    ensures Fetched(d.mem[..], ubMap, BufferAt(read, to), Asked(count)) ==
            Fetched(old(d.mem[..]), old(d.ubMap), BufferAt(write, from), Asked(count))
  {
    ghost var data := Fetched(d.mem[..], d.ubMap, BufferAt(write, from), Asked(count));
    hide *;
    WriteThenBack(d, count, write, from, back, now);
    Rearrange(d, ram, ubMap);
    ReadBack(d, read, count, to, data, now);
  }

  /** Anything may happen to memory and the map between two commands. */
  method Rearrange(d: Drive, ram: seq<u16>, ubMap: Map)
    requires Ready(d) && IsRam(ram) && IsMap(ubMap)
    modifies d`ubMap, d.mem
    ensures Ready(d) && d.ubMap == ubMap
  {
    forall i | 0 <= i < MEM_WORDS {
      d.mem[i] := ram[i];
    }
    d.ubMap := ubMap;
  }

  method ReadBack(d: Drive, read: bv16, count: bv16, to: bv16, ghost data: seq<byte>, now: nat)
    requires Ready(d) && 0 < |data| == Asked(count) && ItemAt(d.tape[..], d.pos) == Here(Record(data))
    requires Commands(read, READ) && NoAlias(d.ubMap, BufferAt(read, to), |data|)
    modifies d, d.mem, d.tape
    ensures d.Shape() && d.pos == old(d.pos) + RecordSize(|data|) && d.ubMap == old(d.ubMap)
    ensures Fetched(d.mem[..], d.ubMap, BufferAt(read, to), |data|) == data
  {
    ghost var t, ram, p, m := d.tape[..], d.mem[..], d.pos, d.ubMap;
    hide *;
    Command(d, READ, read, count, to, now);
    ReadsBack(t, ram, TapeRegs(p, CLEAR, Word(count), Word(to)), BufferAt(read, to), m, data, d.tape[..], d.mem[..],
              d.Regs());
    RegsHold(d);
  }

  lemma RegsHold(d: Drive)
    ensures d.Regs().pos == d.pos
  {
  }

  lemma ReadsBack(t: seq<byte>, ram: seq<u16>, r: TapeRegs, xma: nat, m: Map, data: seq<byte>, t': seq<byte>,
                  ram': seq<u16>, r': TapeRegs)
    requires IsRam(ram) && IsMap(m) && ItemAt(t, r.pos) == Here(Record(data)) && NoAlias(m, xma, |data|)
    requires Executes(READ, t, ram, r, xma, |data|, m, false, t', ram', r')
    ensures IsRam(ram') && Fetched(ram', m, xma, |data|) == data && r'.pos == r.pos + RecordSize(|data|)
  {
    assert Taken(Record(data), |data|) == data && Size(Record(data)) == RecordSize(|data|);
    DeliveredFetched(ram, m, xma, data);
    hide Fetched, Delivered, ItemAt, Taken, Size, RecordSize;
  }

  /** A write followed by a space reverse leaves the tape at the record written. */
  method WriteThenBack(d: Drive, count: bv16, write: bv16, from: bv16, back: bv16, now: nat)
    requires Ready(d) && 0 < Asked(count) && d.pos + RecordSize(Asked(count)) <= d.tape.Length
    requires Commands(write, WRITE) && Commands(back, SPACER)
    modifies d, d.mem, d.tape
    ensures Ready(d) && d.pos == old(d.pos) && d.mem[..] == old(d.mem[..]) && d.ubMap == old(d.ubMap)
    ensures ItemAt(d.tape[..], d.pos) ==
            Here(Record(Fetched(old(d.mem[..]), old(d.ubMap), BufferAt(write, from), Asked(count))))
  {
    ghost var t, ram, m, r := d.tape[..], d.mem[..], d.ubMap, TapeRegs(d.pos, CLEAR, Word(count), Word(from));
    hide *;
    Command(d, WRITE, write, count, from, now);
    ghost var t1, ram1, r1 := d.tape[..], d.mem[..], d.Regs();
    WroteRecord(t, ram, r, BufferAt(write, from), Asked(count), m, t1, ram1, r1);
    StaysReady(d);
    Command(d, SPACER, back, 0, 0, now);
    WentBack(t1, ram1, r1.pos, r.pos, TapeRegs(r1.pos, CLEAR, Word(0), Word(0)), BufferAt(back, 0), Asked(0), m,
             d.tape[..], d.mem[..], d.Regs());
    StaysReady(d);
  }

  /** On the image and idle is ready. */
  lemma StaysReady(d: Drive)
    requires d.Shape() && d.Safe() && !d.busy && d.attached && !d.wrp
    ensures d.Regs().pos == d.pos
    ensures d.pos <= d.tape.Length && d.tape.Length + 0x2_0000 <= LIMIT ==> Ready(d)
  {
  }

  lemma WroteRecord(t: seq<byte>, ram: seq<u16>, r: TapeRegs, xma: nat, n: nat, m: Map, t': seq<byte>, ram': seq<u16>,
                    r': TapeRegs)
    requires IsRam(ram) && IsMap(m) && 0 < n < 0x1_0000 && r.pos + RecordSize(n) <= |t|
    requires Executes(WRITE, t, ram, r, xma, n, m, false, t', ram', r')
    ensures ram' == ram && r'.pos == r.pos + RecordSize(n) && |t'| == |t| && r'.pos <= |t|
    ensures ItemAt(t', r.pos) == Here(Record(Fetched(ram, m, xma, n))) && Precedes(t', r.pos, r'.pos)
  {
    RecordLaid(t, r.pos, Fetched(ram, m, xma, n));
    hide ItemAt, Written, Overlaid, Fetched, RecordSize, Low16, Precedes;
  }

  lemma WentBack(t: seq<byte>, ram: seq<u16>, at: nat, p: nat, r: TapeRegs, xma: nat, n: nat, m: Map, t': seq<byte>,
                 ram': seq<u16>, r': TapeRegs)
    requires IsRam(ram) && IsMap(m) && r.pos == at && Precedes(t, p, at)
    requires Executes(SPACER, t, ram, r, xma, n, m, false, t', ram', r')
    ensures t' == t && ram' == ram && r'.pos == p
  {
    SpacingBackInverts(t, p, at);
    StillOnTape(t, p, at);
    hide ItemAt, SpacedBack, Precedes;
  }
}
