/** Bytes laid over a stretch of a medium. */
module Bytes {
  import opened Words

  function Overlaid(medium: seq<byte>, at: nat, bytes: seq<byte>): (m: seq<byte>)
    requires at + |bytes| <= |medium|
    ensures |m| == |medium|
  {
    medium[..at] + bytes + medium[at + |bytes|..]
  }

  lemma OverlaidOneMore(medium: seq<byte>, at: nat, bytes: seq<byte>, b: byte)
    requires at + |bytes| + 1 <= |medium|
    ensures Overlaid(medium, at, bytes)[at + |bytes| := b] == Overlaid(medium, at, bytes + [b])
  {
  }

  lemma OverlaidTwice(medium: seq<byte>, at: nat, a: seq<byte>, b: seq<byte>)
    requires at + |a| + |b| <= |medium|
    ensures Overlaid(Overlaid(medium, at, a), at + |a|, b) == Overlaid(medium, at, a + b)
  {
  }

  lemma OverlaidThere(medium: seq<byte>, at: nat, bytes: seq<byte>)
    requires at + |bytes| <= |medium|
    ensures Overlaid(medium, at, bytes)[at..at + |bytes|] == bytes
  {
  }

  lemma OverlaidElsewhere(medium: seq<byte>, at: nat, bytes: seq<byte>, from: nat, n: nat)
    requires at + |bytes| <= |medium| && from + n <= |medium|
    requires at + |bytes| <= from || from + n <= at
    ensures Overlaid(medium, at, bytes)[from..from + n] == medium[from..from + n]
  {
  }
}
