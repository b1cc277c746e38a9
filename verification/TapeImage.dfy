/** Tape images: records between a leading and a trailing length, and tape marks. */
module TapeImage {
  import opened Arith
  import opened Words

  datatype Item = Mark | Record(data: seq<byte>)

  datatype Found = Here(item: Item) | EndOfMedium | Unreadable

  const LIMIT: nat := 0x1_0000_0000

  /** The length at a position, its low byte first. */
  function LengthWord(t: seq<byte>, at: nat): (n: nat)
    requires at + 4 <= |t|
    ensures n < LIMIT
  {
    WordOf(t[at], t[at + 1], t[at + 2], t[at + 3])
  }

  function WordOf(b0: byte, b1: byte, b2: byte, b3: byte): (n: nat)
    ensures n < LIMIT
  {
    b0 as int + (b1 as int) * 0x100 + (b2 as int) * 0x1_0000 + (b3 as int) * 0x100_0000
  }

  /** The bytes of a length are its digits in base 256, the lowest first. */
  lemma BytesOf(b0: byte, b1: byte, b2: byte, b3: byte)
    ensures var n := WordOf(b0, b1, b2, b3);
            n % 0x100 == b0 && n / 0x100 % 0x100 == b1 && n / 0x1_0000 % 0x100 == b2 && n / 0x100_0000 == b3
  {
    ModUnique(WordOf(b0, b1, b2, b3), 0x100, b1 as int + b2 as int * 0x100 + b3 as int * 0x1_0000, b0);
    ModUnique(b1 as int + b2 as int * 0x100 + b3 as int * 0x1_0000, 0x100, b2 as int + b3 as int * 0x100, b1);
    DivUnique(WordOf(b0, b1, b2, b3), 0x1_0000, b2 as int + b3 as int * 0x100);
    ModUnique(b2 as int + b3 as int * 0x100, 0x100, b3, b2);
    DivUnique(WordOf(b0, b1, b2, b3), 0x100_0000, b3);
  }

  /** Data is padded to an even number of bytes. */
  function Padded(n: nat): (p: nat)
    ensures n <= p <= n + 1
  {
    (n + 1) / 2 * 2
  }

  lemma PaddedByOne(n: nat)
    ensures Padded(n) == if n % 2 == 1 then n + 1 else n
  {
  }

  function RecordSize(n: nat): nat { 4 + Padded(n) + 4 }

  function Size(x: Item): (n: nat)
    ensures n >= 4
  {
    match x
    case Mark => 4
    case Record(data) => RecordSize(|data|)
  }

  function ItemAt(t: seq<byte>, pos: nat): Found {
    if pos + 4 > |t| then EndOfMedium
    else
      var n := LengthWord(t, pos);
      if n == 0 then Here(Mark)
      else if pos + RecordSize(n) <= |t| && LengthWord(t, pos + 4 + Padded(n)) == n
      then Here(Record(t[pos + 4..pos + 4 + n]))
      else Unreadable
  }

  /** The position after some whole number of items from the start. */
  ghost predicate IsBoundary(t: seq<byte>, at: nat)
    decreases at
  {
    at == 0 || exists p :: 0 <= p < at && Precedes(t, p, at) && IsBoundary(t, p)
  }

  /** An item lies exactly between two positions. */
  predicate Precedes(t: seq<byte>, p: nat, at: nat) {
    ItemAt(t, p).Here? && p + Size(ItemAt(t, p).item) == at
  }

  /** From a position on, the image is items to the end. */
  predicate Parses(t: seq<byte>, from: nat)
    decreases |t| - from
  {
    match ItemAt(t, from)
    case EndOfMedium => true
    case Unreadable => false
    case Here(x) => Parses(t, from + Size(x))
  }

  /** An item lies within the image, and ends with the length it began with. */
  lemma ItemEnds(t: seq<byte>, p: nat, at: nat)
    requires Precedes(t, p, at)
    ensures p + 4 <= at <= |t|
    ensures var n := LengthWord(t, at - 4);
            if ItemAt(t, p).item.Mark? then n == 0 else n == |ItemAt(t, p).item.data| > 0
  {
    hide WordOf, Padded;
  }

  /** Where spacing back from a position leads: past a mark, or past as much as the trailing length says. */
  function SpacedBack(t: seq<byte>, at: nat): int
    requires 4 <= at <= |t|
  {
    var n := LengthWord(t, at - 4);
    if n == 0 then at - 4 else at - RecordSize(n)
  }

  /** Spacing back from the end of an item leads to its start. */
  lemma SpacingBackInverts(t: seq<byte>, p: nat, at: nat)
    requires Precedes(t, p, at)
    ensures 4 <= at <= |t| && SpacedBack(t, at) == p
  {
    ItemEnds(t, p, at);
    hide LengthWord, Padded;
  }

  /** So between a boundary and the next there is only one item, and spacing back from a boundary other than the
      start reaches a boundary. */
  lemma BoundaryBefore(t: seq<byte>, at: nat) returns (p: nat)
    requires IsBoundary(t, at) && at != 0
    ensures 4 <= at <= |t| && p == SpacedBack(t, at) && p < at && IsBoundary(t, p) && Precedes(t, p, at)
  {
    p :| 0 <= p < at && Precedes(t, p, at) && IsBoundary(t, p);
    SpacingBackInverts(t, p, at);
  }

  lemma BoundaryAfter(t: seq<byte>, p: nat)
    requires IsBoundary(t, p) && ItemAt(t, p).Here?
    ensures IsBoundary(t, p + Size(ItemAt(t, p).item))
  {
    var at := p + Size(ItemAt(t, p).item);
    assert Precedes(t, p, at);
  }

  /** On an image that parses, every boundary has an item or the end of the medium ahead of it. */
  lemma {:induction false} ParsesFromBoundary(t: seq<byte>, at: nat)
    requires Parses(t, 0) && IsBoundary(t, at)
    ensures Parses(t, at) && ItemAt(t, at) != Unreadable
    decreases at
  {
    if at != 0 {
      var p := BoundaryBefore(t, at);
      ParsesFromBoundary(t, p);
      ParsesPast(t, p, at);
    }
    ParsesHere(t, at);
    hide *;
  }

  lemma ParsesHere(t: seq<byte>, at: nat)
    ensures Parses(t, at) ==> ItemAt(t, at) != Unreadable
  {
    hide ItemAt;
  }

  lemma ParsesPast(t: seq<byte>, p: nat, at: nat)
    requires Parses(t, p) && Precedes(t, p, at)
    ensures Parses(t, at)
  {
    hide ItemAt, Size;
  }

  lemma LengthIsLocal(t: seq<byte>, t': seq<byte>, at: nat, i: nat)
    requires i + 4 <= at <= |t| && at <= |t'| && t[..at] == t'[..at]
    ensures LengthWord(t, i) == LengthWord(t', i)
  {
    assert t[..at][i] == t'[..at][i] && t[..at][i + 1] == t'[..at][i + 1];
    assert t[..at][i + 2] == t'[..at][i + 2] && t[..at][i + 3] == t'[..at][i + 3];
    hide WordOf;
  }

  lemma SliceIsLocal(t: seq<byte>, t': seq<byte>, at: nat, a: nat, b: nat)
    requires a <= b <= at <= |t| && at <= |t'| && t[..at] == t'[..at]
    ensures t[a..b] == t'[a..b]
  {
    assert t[a..b] == t[..at][a..b] && t'[a..b] == t'[..at][a..b];
  }

  /** An item depends on its own bytes only. */
  lemma ItemIsLocal(t: seq<byte>, t': seq<byte>, p: nat, at: nat)
    requires Precedes(t, p, at) && at <= |t'| && t[..at] == t'[..at]
    ensures ItemAt(t', p) == ItemAt(t, p)
  {
    ItemEnds(t, p, at);
    hide LengthWord, Padded;
    var n := LengthWord(t, p);
    LengthIsLocal(t, t', at, p);
    if n != 0 {
      assert at == p + RecordSize(n) && p + 4 + n <= at;
      LengthIsLocal(t, t', at, at - 4);
      SliceIsLocal(t, t', at, p + 4, p + 4 + n);
    }
  }

  /** Whatever is written from a boundary on, it stays a boundary. */
  lemma {:induction false} BoundaryIsLocal(t: seq<byte>, t': seq<byte>, at: nat)
    requires IsBoundary(t, at) && at <= |t| && at <= |t'| && t[..at] == t'[..at]
    ensures IsBoundary(t', at)
    decreases at
  {
    if at != 0 {
      var p := BoundaryBefore(t, at);
      assert t[..p] == t[..at][..p] && t'[..p] == t'[..at][..p];
      BoundaryIsLocal(t, t', p);
      ItemIsLocal(t, t', p, at);
      hide ItemAt, SpacedBack;
      assert Precedes(t', p, at);
    }
  }

  // ---- what a write lays down -------------------------------------------------------------------------------

  function Low(n: nat): byte { n % 0x100 }

  function Mid(n: nat): byte { n / 0x100 % 0x100 }

  /** A record as the controller writes it; its counts are 16 bits, so the upper length bytes are zero. */
  function Written(data: seq<byte>): (s: seq<byte>)
    ensures |s| == RecordSize(|data|)
  {
    var n := |data|;
    PaddedByOne(n);
    [Low(n), Mid(n), 0, 0] + (data + if n % 2 == 1 then [0] else []) + [Low(n), Mid(n), 0, 0]
  }

  lemma ShortLength(n: nat)
    requires n < 0x1_0000
    ensures WordOf(Low(n), Mid(n), 0, 0) == n
  {
  }

  /** A record written over an image reads back as that record. */
  lemma WrittenReadsBack(t: seq<byte>, pos: nat, data: seq<byte>)
    requires 0 < |data| < 0x1_0000 && pos + RecordSize(|data|) <= |t|
    requires t[pos..pos + RecordSize(|data|)] == Written(data)
    ensures ItemAt(t, pos) == Here(Record(data))
  {
    var n, w := |data|, Written(data);
    WrittenParts(data);
    assert |w| == RecordSize(n);
    hide *;
    LengthInSlice(t, pos, w, 0);
    LengthInSlice(t, pos, w, 4 + Padded(n));
    NestedSlice(t, pos, |w|, 4, 4 + n);
    IsRecord(t, pos, data);
  }

  lemma IsRecord(t: seq<byte>, pos: nat, data: seq<byte>)
    requires 0 < |data| && pos + RecordSize(|data|) <= |t|
    requires LengthWord(t, pos) == |data| && LengthWord(t, pos + (4 + Padded(|data|))) == |data|
    requires t[pos + 4..pos + (4 + |data|)] == data
    ensures ItemAt(t, pos) == Here(Record(data))
  {
    hide LengthWord, Padded;
  }

  lemma NestedSlice(t: seq<byte>, pos: nat, size: nat, a: nat, b: nat)
    requires pos + size <= |t| && a <= b <= size
    ensures t[pos..pos + size][a..b] == t[pos + a..pos + b]
  {
    var u, v := t[pos..pos + size][a..b], t[pos + a..pos + b];
    assert |u| == |v|;
    assert forall i :: 0 <= i < |u| ==> u[i] == t[pos..pos + size][a + i] == v[i];
  }

  lemma LengthInSlice(t: seq<byte>, pos: nat, w: seq<byte>, k: nat)
    requires pos + |w| <= |t| && t[pos..pos + |w|] == w && k + 4 <= |w|
    ensures LengthWord(t, pos + k) == LengthWord(w, k)
  {
    assert t[pos + k] == w[k] && t[pos + k + 1] == w[k + 1];
    assert t[pos + k + 2] == w[k + 2] && t[pos + k + 3] == w[k + 3];
    hide WordOf;
  }

  /** A written record: its length, its data, and its length again. */
  lemma WrittenParts(data: seq<byte>)
    requires |data| < 0x1_0000
    ensures var n, w := |data|, Written(data);
            && 4 + Padded(n) + 4 == |w| && w[4..4 + n] == data
            && LengthWord(w, 0) == n && LengthWord(w, 4 + Padded(n)) == n
  {
    var n, w := |data|, Written(data);
    PaddedByOne(n);
    ShortLength(n);
    var k := 4 + Padded(n);
    hide Low, Mid, Padded, WordOf;
    assert w[0] == Low(n) && w[1] == Mid(n) && w[2] == 0 && w[3] == 0;
    assert w[k] == Low(n) && w[k + 1] == Mid(n) && w[k + 2] == 0 && w[k + 3] == 0;
  }
}
