/** The 11/70 cache as a timing model: 256 sets of two blocks, replaced round robin. */
module Cache {
  const SETS: nat := 256

  function SetOf(pa: nat): (s: nat)
    ensures s < SETS
  {
    pa / 4 % 256
  }

  function TagOf(pa: nat): (t: nat)
    ensures t < 4096
  {
    pa / 1024 % 4096
  }

  /** A block is four bytes: physical addresses of 22 bits are one block if and only if they agree but for the last two
      bits, and blocks that follow one another lie in sets that do. */
  lemma SameBlock(pa: nat, pb: nat)
    requires pa < 0x40_0000 && pb < 0x40_0000
    ensures SetOf(pa) == SetOf(pb) && TagOf(pa) == TagOf(pb) <==> pa / 4 == pb / 4
    ensures SetOf(pa + 4) == (SetOf(pa) + 1) % 256
  {
    BlockParts(pa);
    BlockParts(pb);
    NextSet(pa / 4);
    hide SetOf, TagOf;
  }

  lemma BlockParts(pa: nat)
    requires pa < 0x40_0000
    ensures pa / 4 == TagOf(pa) * 256 + SetOf(pa)
    ensures SetOf(pa) == pa / 4 % 256 && SetOf(pa + 4) == (pa / 4 + 1) % 256
  {
    var b := pa / 4;
    assert pa == b * 4 + pa % 4 && b == b / 256 * 256 + b % 256;
    assert pa / 1024 == b / 256 && (pa + 4) / 4 == b + 1;
  }

  lemma NextSet(b: nat)
    ensures (b + 1) % 256 == (b % 256 + 1) % 256
  {
  }

  // ---- a set as a queue -------------------------------------------------------------------------------------

  /** The two most recently missed tags of each set, older first. */
  type Queues = q: seq<seq<nat>> | |q| == SETS witness seq(SETS, _ => [])

  function NoQueues(): Queues { seq(SETS, _ => []) }

  function Queued(q: seq<nat>, tag: nat): seq<nat> {
    if |q| < 2 then q + [tag] else [q[|q| - 1], tag]
  }

  predicate Hit(q: Queues, pa: nat) { TagOf(pa) in q[SetOf(pa)] }

  function AfterRead(q: Queues, pa: nat): Queues {
    if Hit(q, pa) then q else q[SetOf(pa) := Queued(q[SetOf(pa)], TagOf(pa))]
  }

  class Cache {
    const tag: array2<nat>
    const valid: array2<bool>
    const victim: array<nat>
    var misses: nat

    predicate Shape()
      reads this
    {
      && tag.Length0 == SETS && tag.Length1 == 2 && valid.Length0 == SETS && valid.Length1 == 2
      && victim.Length == SETS
    }

    /** A set fills its first way, then its second; once both are valid the victim is the older, and no tag is
        in both. */
    predicate SetValid(s: nat)
      requires Shape() && s < SETS
      reads this, tag, valid, victim
    {
      && victim[s] < 2
      && (!valid[s, 0] ==> !valid[s, 1] && victim[s] == 0)
      && (valid[s, 0] && !valid[s, 1] ==> victim[s] == 1)
      && (valid[s, 0] && valid[s, 1] ==> tag[s, 0] != tag[s, 1])
    }

    predicate Valid()
      reads this, tag, valid, victim
    {
      Shape() && forall s :: 0 <= s < SETS ==> SetValid(s)
    }

    function Queue(s: nat): seq<nat>
      requires Shape() && s < SETS && SetValid(s)
      reads this, tag, valid, victim
    {
      if !valid[s, 0] then []
      else if !valid[s, 1] then [tag[s, 0]]
      else [tag[s, victim[s]], tag[s, 1 - victim[s]]]
    }

    ghost function Contents(): (q: Queues)
      requires Valid()
      reads this, tag, valid, victim
      ensures forall s :: 0 <= s < SETS ==> q[s] == Queue(s)
    {
      seq(SETS, s requires 0 <= s < SETS && Valid() reads this, tag, valid, victim => Queue(s))
    }

    constructor ()
      ensures fresh(tag) && fresh(valid) && fresh(victim)
      ensures Valid() && Contents() == NoQueues() && misses == 0
    {
      tag := new nat[SETS, 2]((_, _) => 0);
      valid := new bool[SETS, 2]((_, _) => false);
      victim := new nat[SETS](_ => 0);
      misses := 0;
    }

    /** pdp11_cache_reset */
    method Reset()
      requires Shape()
      modifies this, tag, valid, victim
      ensures Valid() && Contents() == NoQueues() && misses == 0
    {
      forall s, w | 0 <= s < SETS && 0 <= w < 2 {
        tag[s, w] := 0;
      }
      forall s, w | 0 <= s < SETS && 0 <= w < 2 {
        valid[s, w] := false;
      }
      forall s | 0 <= s < SETS {
        victim[s] := 0;
      }
      misses := 0;
    }

    /** pdp11_cache_read: a read hits exactly when its tag is one of the last two missed in its set, and a miss
        pushes out the older. */
    method Read(pa: nat) returns (hit: bool)
      requires Valid()
      modifies this, tag, valid, victim
      ensures Valid()
      ensures hit == Hit(old(Contents()), pa) && Contents() == AfterRead(old(Contents()), pa)
      ensures misses == old(misses) + if hit then 0 else 1
    {
      var s, t := SetOf(pa), TagOf(pa);
      ghost var before := Contents();
      assert SetValid(s) && before[s] == Queue(s);
      if (valid[s, 0] && tag[s, 0] == t) || (valid[s, 1] && tag[s, 1] == t) {
        return true;
      }
      var w := victim[s];
      tag[s, w] := t;
      valid[s, w] := true;
      victim[s] := 1 - w;
      misses := misses + 1;
      assert SetValid(s) && Queue(s) == Queued(before[s], t);
      forall other | 0 <= other < SETS && other != s
        ensures SetValid(other) && Queue(other) == before[other]
      {
        assert old(SetValid(other));
      }
      assert Contents() == before[s := Queued(before[s], t)];
      return false;
    }
  }

  // ---- over any trace -----------------------------------------------------------------------------------------

  function Answers(q: Queues, trace: seq<nat>): (hits: seq<bool>)
    ensures |hits| == |trace|
    decreases |trace|
  {
    if trace == [] then [] else [Hit(q, trace[0])] + Answers(AfterRead(q, trace[0]), trace[1..])
  }

  function AfterTrace(q: Queues, trace: seq<nat>): Queues
    decreases |trace|
  {
    if trace == [] then q else AfterTrace(AfterRead(q, trace[0]), trace[1..])
  }

  function Misses(hits: seq<bool>): nat {
    if hits == [] then 0 else (if hits[0] then 0 else 1) + Misses(hits[1..])
  }

  lemma {:induction false} MissesAppend(hits: seq<bool>, hit: bool)
    ensures Misses(hits + [hit]) == Misses(hits) + if hit then 0 else 1
  {
    if hits != [] {
      assert (hits + [hit])[1..] == hits[1..] + [hit];
      MissesAppend(hits[1..], hit);
    }
  }

  lemma {:induction false} TraceAppend(q: Queues, trace: seq<nat>, pa: nat)
    ensures Answers(q, trace + [pa]) == Answers(q, trace) + [Hit(AfterTrace(q, trace), pa)]
    ensures AfterTrace(q, trace + [pa]) == AfterRead(AfterTrace(q, trace), pa)
    decreases |trace|
  {
    hide AfterRead, Hit;
    if trace == [] {
      assert trace + [pa] == [pa] && [pa][1..] == [];
    } else {
      var longer := trace + [pa];
      assert longer[0] == trace[0] && longer[1..] == trace[1..] + [pa];
      TraceAppend(AfterRead(q, trace[0]), trace[1..], pa);
    }
  }

  /** From reset, any trace is answered as the queues would, and the miss counter is the number of false
      answers. */
  method Replay(c: Cache, trace: seq<nat>) returns (hits: seq<bool>)
    requires c.Shape()
    modifies c, c.tag, c.valid, c.victim
    ensures c.Valid() && c.Contents() == AfterTrace(NoQueues(), trace)
    ensures hits == Answers(NoQueues(), trace) && c.misses == Misses(hits)
  {
    c.Reset();
    hits := [];
    assert trace[..0] == [] && Misses([]) == 0;
    assert Answers(NoQueues(), []) == [] && AfterTrace(NoQueues(), []) == NoQueues();
    hide Answers, AfterTrace, Misses, AfterRead, Hit, NoQueues;
    while |hits| < |trace|
      invariant |hits| <= |trace| && c.Valid() && c.Contents() == AfterTrace(NoQueues(), trace[..|hits|])
      invariant hits == Answers(NoQueues(), trace[..|hits|]) && c.misses == Misses(hits)
    {
      var pa := trace[|hits|];
      assert trace[..|hits| + 1] == trace[..|hits|] + [pa];
      TraceAppend(NoQueues(), trace[..|hits|], pa);
      var hit := c.Read(pa);
      MissesAppend(hits, hit);
      hits := hits + [hit];
    }
    assert trace[..|hits|] == trace;
  }

  /** The tags missed in one set over a trace, in order. */
  function Missed(q: Queues, trace: seq<nat>, s: nat): seq<nat>
    decreases |trace|
  {
    if trace == [] then []
    else (if SetOf(trace[0]) == s && !Hit(q, trace[0]) then [TagOf(trace[0])] else [])
         + Missed(AfterRead(q, trace[0]), trace[1..], s)
  }

  function LastTwo(tags: seq<nat>): seq<nat> {
    if |tags| <= 2 then tags else tags[|tags| - 2..]
  }

  predicate Distinct(tags: seq<nat>) {
    |tags| <= 2 && (|tags| == 2 ==> tags[0] != tags[1])
  }

  /** After any trace a set holds the last two tags it missed, and never one tag twice. */
  lemma HoldsLastTwoMissed(trace: seq<nat>, s: nat)
    requires s < SETS
    ensures AfterTrace(NoQueues(), trace)[s] == LastTwo(Missed(NoQueues(), trace, s))
    ensures Distinct(AfterTrace(NoQueues(), trace)[s])
  {
    QueueIsLastTwo(NoQueues(), trace, s);
    assert NoQueues()[s] + Missed(NoQueues(), trace, s) == Missed(NoQueues(), trace, s);
  }

  lemma {:induction false} QueueIsLastTwo(q: Queues, trace: seq<nat>, s: nat)
    requires s < SETS && Distinct(q[s])
    ensures AfterTrace(q, trace)[s] == LastTwo(q[s] + Missed(q, trace, s))
    ensures Distinct(AfterTrace(q, trace)[s])
    decreases |trace|
  {
    if trace == [] {
      assert q[s] + [] == q[s];
    } else {
      var q' := AfterRead(q, trace[0]);
      var rest := Missed(q', trace[1..], s);
      QueueIsLastTwo(q', trace[1..], s);
      if SetOf(trace[0]) == s && !Hit(q, trace[0]) {
        QueuedKeepsLastTwo(q[s], TagOf(trace[0]), rest);
      } else {
        assert q'[s] == q[s] && [] + rest == rest;
      }
    }
  }

  lemma QueuedKeepsLastTwo(q: seq<nat>, tag: nat, rest: seq<nat>)
    requires |q| <= 2
    ensures LastTwo(Queued(q, tag) + rest) == LastTwo(q + ([tag] + rest))
  {
    var a, b := Queued(q, tag) + rest, q + ([tag] + rest);
    if |q| < 2 {
      assert a == b;
    } else {
      assert a == b[1..];
    }
  }

  // ---- any other replacement policy ---------------------------------------------------------------------------

  /** A replacement policy: from everything read so far and a full set, the blocks to keep. */
  type Policy = (seq<nat>, set<nat>) -> set<nat>

  ghost predicate KeepsOne(keep: Policy) {
    forall history, full :: |full| == 2 ==> keep(history, full) < full
  }

  type Residents = r: seq<set<nat>> | |r| == SETS witness seq(SETS, _ => {})

  function NoResidents(): Residents { seq(SETS, _ => {}) }

  /** A two-way cache under a policy: an invalid way is filled first, and only a full set consults the policy. */
  function PolicyRead(r: Residents, history: seq<nat>, pa: nat, keep: Policy): Residents {
    var s, t := SetOf(pa), TagOf(pa);
    if t in r[s] then r
    else if |r[s]| < 2 then r[s := r[s] + {t}]
    else r[s := keep(history, r[s]) + {t}]
  }

  function PolicyAnswers(r: Residents, history: seq<nat>, trace: seq<nat>, keep: Policy): (hits: seq<bool>)
    ensures |hits| == |trace|
    decreases |trace|
  {
    if trace == [] then []
    else [TagOf(trace[0]) in r[SetOf(trace[0])]]
         + PolicyAnswers(PolicyRead(r, history, trace[0], keep), history + [trace[0]], trace[1..], keep)
  }

  function Touched(trace: seq<nat>, s: nat): set<nat> {
    set pa | pa in trace && SetOf(pa) == s :: TagOf(pa)
  }

  ghost predicate Localized(trace: seq<nat>) {
    forall s :: 0 <= s < SETS ==> |Touched(trace, s)| <= 2
  }

  function Elements(q: seq<nat>): set<nat> { set t | t in q }

  /** On a trace that touches at most two blocks of each set since reset, the round-robin cache answers as every
      policy does. */
  lemma PolicyInsensitive(trace: seq<nat>, keep: Policy)
    requires Localized(trace)
    ensures Answers(NoQueues(), trace) == PolicyAnswers(NoResidents(), [], trace, keep)
  {
    forall s | 0 <= s < SETS
      ensures Agrees(NoQueues()[s], NoResidents()[s], Touched(trace, s))
    {
      assert {} + Touched(trace, s) == Touched(trace, s);
    }
    SameAnswers(NoQueues(), NoResidents(), [], trace, keep);
  }

  /** A queue and a resident set hold the same blocks, and with those still to come there are at most two. */
  ghost predicate Agrees(q: seq<nat>, r: set<nat>, coming: set<nat>) {
    Distinct(q) && Elements(q) == r && |r + coming| <= 2
  }

  lemma {:induction false} SameAnswers(q: Queues, r: Residents, history: seq<nat>, trace: seq<nat>, keep: Policy)
    requires forall s :: 0 <= s < SETS ==> Agrees(q[s], r[s], Touched(trace, s))
    ensures Answers(q, trace) == PolicyAnswers(r, history, trace, keep)
    decreases |trace|
  {
    if trace != [] {
      var pa := trace[0];
      var s, t := SetOf(pa), TagOf(pa);
      var q', r' := AfterRead(q, pa), PolicyRead(r, history, pa, keep);
      assert t in Elements(q[s]) <==> t in q[s];
      assert t in Touched(trace, s);
      forall i | 0 <= i < SETS
        ensures Agrees(q'[i], r'[i], Touched(trace[1..], i))
      {
        assert Agrees(q[i], r[i], Touched(trace, i));
        if i == s && t !in q[s] {
          RoomForOne(q[s], r[s], t, Touched(trace, s), Touched(trace[1..], s));
        } else {
          Shrinks(r[i] + Touched(trace, i), r[i] + Touched(trace[1..], i));
        }
      }
      SameAnswers(q', r', history + [pa], trace[1..], keep);
    }
  }

  /** A block not yet resident but among the at most two of its set finds a free way in both. */
  lemma RoomForOne(q: seq<nat>, r: set<nat>, t: nat, coming: set<nat>, later: set<nat>)
    requires Agrees(q, r, coming) && t !in q && t in coming && later <= coming
    ensures |r| < 2 && |q| < 2 && Agrees(q + [t], r + {t}, later)
  {
    assert Elements(q + [t]) == Elements(q) + {t};
    assert t !in r;
    Shrinks(r + coming, r + {t});
    Shrinks(r + coming, r + {t} + later);
    DistinctSize(q);
  }

  lemma DistinctSize(q: seq<nat>)
    requires Distinct(q)
    ensures |Elements(q)| == |q|
  {
    if |q| == 1 {
      assert Elements(q) == {q[0]};
    } else if |q| == 2 {
      assert Elements(q) == {q[0], q[1]};
    } else {
      assert Elements(q) == {};
    }
  }

  lemma {:induction false} Shrinks(big: set<nat>, small: set<nat>)
    requires small <= big
    ensures |small| <= |big|
    decreases |small|
  {
    if small != {} {
      var x :| x in small;
      Shrinks(big - {x}, small - {x});
    }
  }

  // ---- exactly when the policy cannot be seen -------------------------------------------------------------------

  /** The tags of one set in the order a trace first reads them. */
  function FirstSeen(trace: seq<nat>, s: nat): (tags: seq<nat>) {
    if trace == [] then []
    else
      var pa := trace[|trace| - 1];
      WithSeen(FirstSeen(trace[..|trace| - 1], s), if SetOf(pa) == s then [TagOf(pa)] else [])
  }

  function WithSeen(seen: seq<nat>, read: seq<nat>): seq<nat> {
    if read == [] || read[0] in seen then seen else seen + [read[0]]
  }

  /** Once a set has seen three tags, a read of it is of a new tag or of the newest. */
  predicate SteadyTag(seen: seq<nat>, t: nat) {
    t !in seen || |seen| <= 2 || t == seen[|seen| - 1]
  }

  predicate SteadyRead(before: seq<nat>, pa: nat) {
    SteadyTag(FirstSeen(before, SetOf(pa)), TagOf(pa))
  }

  ghost predicate Steady(trace: seq<nat>) {
    forall i :: 0 <= i < |trace| ==> SteadyRead(trace[..i], trace[i])
  }

  lemma SeenAfter(history: seq<nat>, pa: nat, s: nat)
    ensures FirstSeen(history + [pa], s) ==
            WithSeen(FirstSeen(history, s), if SetOf(pa) == s then [TagOf(pa)] else [])
  {
    assert (history + [pa])[..|history|] == history;
  }

  predicate NoTwice(seen: seq<nat>) {
    forall i, j :: 0 <= i < j < |seen| ==> seen[i] != seen[j]
  }

  /** While at most two tags have been seen a set holds exactly those; afterwards it has the newest, and only tags
      that have been seen. */
  ghost predicate Holds(r: set<nat>, seen: seq<nat>) {
    && NoTwice(seen) && |r| <= 2 && r <= Elements(seen)
    && (|seen| <= 2 ==> r == Elements(seen)) && (seen != [] ==> seen[|seen| - 1] in r)
  }

  /** What a way of replacing leaves of a set: the new tag joins it, or what is kept of a full one. */
  function Refilled(r: set<nat>, t: nat, kept: set<nat>): set<nat> {
    if t in r then r else if |r| < 2 then r + {t} else kept + {t}
  }

  /** Under any policy, a steady read hits exactly when its tag has been seen. */
  lemma SteadyHolds(r: set<nat>, seen: seq<nat>, t: nat, kept: set<nat>)
    requires Holds(r, seen) && SteadyTag(seen, t) && (|r| == 2 ==> kept < r)
    ensures t in r <==> t in seen
    ensures Holds(Refilled(r, t, kept), WithSeen(seen, [t]))
  {
    assert t in seen <==> t in Elements(seen);
    if t !in seen {
      assert Elements(seen + [t]) == Elements(seen) + {t};
      if |r| == 2 {
        ProperShrinks(r, kept);
      }
      FewSeen(seen);
    }
  }

  lemma ProperShrinks(big: set<nat>, small: set<nat>)
    requires small < big
    ensures |small| < |big|
  {
    var x :| x in big && x !in small;
    Shrinks(big - {x}, small);
  }

  lemma FewSeen(seen: seq<nat>)
    requires NoTwice(seen)
    ensures |seen| <= 2 ==> |Elements(seen)| == |seen|
  {
    if |seen| <= 2 {
      DistinctSize(seen);
    }
  }

  /** Round robin is one such policy. */
  ghost predicate QueueHolds(q: seq<nat>, seen: seq<nat>) {
    && NoTwice(seen) && |q| <= 2 && (|seen| <= 2 ==> q == seen) && (seen != [] ==> seen[|seen| - 1] in q)
    && (forall t :: t in q ==> t in seen)
  }

  lemma SteadyQueue(q: seq<nat>, seen: seq<nat>, t: nat)
    requires QueueHolds(q, seen) && SteadyTag(seen, t)
    ensures t in q <==> t in seen
    ensures QueueHolds(if t in q then q else Queued(q, t), WithSeen(seen, [t]))
  {
  }

  ghost predicate AllHold(q: Queues, r: Residents, history: seq<nat>) {
    forall s :: 0 <= s < SETS ==> Holds(r[s], FirstSeen(history, s)) && QueueHolds(q[s], FirstSeen(history, s))
  }

  lemma StepHolds(q: Queues, r: Residents, history: seq<nat>, pa: nat, keep: Policy)
    requires KeepsOne(keep) && AllHold(q, r, history) && SteadyRead(history, pa)
    ensures Hit(q, pa) <==> TagOf(pa) in r[SetOf(pa)]
    ensures AllHold(AfterRead(q, pa), PolicyRead(r, history, pa, keep), history + [pa])
  {
    forall i | 0 <= i < SETS
      ensures Holds(PolicyRead(r, history, pa, keep)[i], FirstSeen(history + [pa], i))
      ensures QueueHolds(AfterRead(q, pa)[i], FirstSeen(history + [pa], i))
      ensures i == SetOf(pa) ==> (TagOf(pa) in q[i] <==> TagOf(pa) in r[i])
    {
      SetHolds(q[i], r[i], history, pa, keep, i);
      ReadOne(q, r, history, pa, keep, i);
      hide *;
    }
    hide Holds, QueueHolds, SetOf, TagOf, FirstSeen, SteadyRead, AfterRead, PolicyRead, KeepsOne;
    assert Hit(q, pa) <==> TagOf(pa) in q[SetOf(pa)];
  }

  /** What a read does to one set. */
  lemma ReadOne(q: Queues, r: Residents, history: seq<nat>, pa: nat, keep: Policy, i: nat)
    requires i < SETS
    ensures PolicyRead(r, history, pa, keep)[i] ==
            if i == SetOf(pa) then Refilled(r[i], TagOf(pa), keep(history, r[i])) else r[i]
    ensures AfterRead(q, pa)[i] ==
            if i == SetOf(pa) && TagOf(pa) !in q[i] then Queued(q[i], TagOf(pa)) else q[i]
  {
    hide SetOf, TagOf, Queued;
  }

  lemma SetHolds(q: seq<nat>, r: set<nat>, history: seq<nat>, pa: nat, keep: Policy, i: nat)
    requires KeepsOne(keep) && i < SETS && SteadyRead(history, pa)
    requires Holds(r, FirstSeen(history, i)) && QueueHolds(q, FirstSeen(history, i))
    ensures var s, t := SetOf(pa), TagOf(pa);
            && Holds(if i == s then Refilled(r, t, keep(history, r)) else r, FirstSeen(history + [pa], i))
            && QueueHolds(if i == s && t !in q then Queued(q, t) else q, FirstSeen(history + [pa], i))
            && (i == s ==> (t in q <==> t in r))
  {
    SeenAfter(history, pa, i);
    if i == SetOf(pa) {
      assert |r| == 2 ==> keep(history, r) < r;
      hide Holds, QueueHolds, SetOf, TagOf, WithSeen, FirstSeen, SteadyTag, Queued, Refilled;
      SteadyHolds(r, FirstSeen(history, i), TagOf(pa), keep(history, r));
      SteadyQueue(q, FirstSeen(history, i), TagOf(pa));
    } else {
      NothingSeen(FirstSeen(history, i));
    }
  }

  lemma NothingSeen(seen: seq<nat>)
    ensures WithSeen(seen, []) == seen
  {
  }

  /** The reads that lie ahead are steady after what has been read. */
  ghost predicate SteadyFrom(history: seq<nat>, trace: seq<nat>) {
    forall i :: 0 <= i < |trace| ==> SteadyRead(history + trace[..i], trace[i])
  }

  lemma SteadyTail(history: seq<nat>, trace: seq<nat>)
    requires trace != [] && SteadyFrom(history, trace)
    ensures SteadyRead(history, trace[0]) && SteadyFrom(history + [trace[0]], trace[1..])
  {
    hide SteadyRead;
    assert history + trace[..0] == history;
    var h, tail := history + [trace[0]], trace[1..];
    forall i | 0 <= i < |tail|
      ensures SteadyRead(h + tail[..i], tail[i])
    {
      assert h + tail[..i] == history + trace[..i + 1] && tail[i] == trace[i + 1];
    }
  }

  lemma {:induction false} SteadySame(q: Queues, r: Residents, history: seq<nat>, trace: seq<nat>, keep: Policy)
    requires KeepsOne(keep) && AllHold(q, r, history) && SteadyFrom(history, trace)
    ensures Answers(q, trace) == PolicyAnswers(r, history, trace, keep)
    decreases |trace|
  {
    if trace != [] {
      SteadyTail(history, trace);
      StepHolds(q, r, history, trace[0], keep);
      hide AllHold, SteadyRead, SteadyFrom, AfterRead, PolicyRead, KeepsOne, Hit;
      var q', r' := AfterRead(q, trace[0]), PolicyRead(r, history, trace[0], keep);
      SteadySame(q', r', history + [trace[0]], trace[1..], keep);
      HitIs(q, trace[0]);
    }
  }

  lemma HitIs(q: Queues, pa: nat)
    ensures Hit(q, pa) <==> TagOf(pa) in q[SetOf(pa)]
  {
  }

  // ---- and when it can ------------------------------------------------------------------------------------------

  /** Keep a tag at all costs, or get rid of it at once. */
  ghost function Keeping(x: nat): Policy {
    (history, full) => if x in full then {x} else {}
  }

  ghost function Dropping(x: nat): Policy {
    (history, full) => if x in full then full - {x} else full - OneOf(full)
  }

  ghost function OneOf(full: set<nat>): (one: set<nat>)
    ensures one <= full && (full != {} ==> |one| == 1)
  {
    if full == {} then {}
    else
      var x :| x in full;
      {x}
  }

  lemma KeepingKeepsOne(x: nat)
    ensures KeepsOne(Keeping(x))
  {
    forall history: seq<nat>, full: set<nat> | |full| == 2
      ensures Keeping(x)(history, full) < full
    {
      assert x in full ==> |full - {x}| == 1;
    }
  }

  lemma DroppingKeepsOne(x: nat)
    ensures KeepsOne(Dropping(x))
    ensures forall history, full :: |full| == 2 ==> |Dropping(x)(history, full)| == 1
  {
    forall history: seq<nat>, full: set<nat> | |full| == 2
      ensures Dropping(x)(history, full) < full && |Dropping(x)(history, full)| == 1
    {
      assert x in full ==> |full - {x}| == 1;
      var one := OneOf(full);
      assert |full - one| == |full| - |one|;
    }
  }

  function PolicyAfter(r: Residents, history: seq<nat>, trace: seq<nat>, keep: Policy): Residents
    decreases |trace|
  {
    if trace == [] then r
    else PolicyAfter(PolicyRead(r, history, trace[0], keep), history + [trace[0]], trace[1..], keep)
  }

  lemma {:induction false} PolicyAnswerAt(r: Residents, history: seq<nat>, trace: seq<nat>, i: nat, keep: Policy)
    requires i < |trace|
    ensures PolicyAnswers(r, history, trace, keep)[i] ==
            (TagOf(trace[i]) in PolicyAfter(r, history, trace[..i], keep)[SetOf(trace[i])])
    decreases |trace|
  {
    hide PolicyRead, TagOf, SetOf;
    if i > 0 {
      PolicyAnswerAt(PolicyRead(r, history, trace[0], keep), history + [trace[0]], trace[1..], i - 1, keep);
      assert trace[..i][0] == trace[0] && trace[..i][1..] == trace[1..][..i - 1];
    }
  }

  /** What is kept at all costs is resident from its first read on. */
  lemma {:induction false} StaysResident(x: nat, s: nat, r: Residents, history: seq<nat>, trace: seq<nat>)
    requires s < SETS && (x in FirstSeen(history, s) ==> x in r[s])
    ensures x in FirstSeen(history + trace, s) ==> x in PolicyAfter(r, history, trace, Keeping(x))[s]
    decreases |trace|
  {
    if trace == [] {
      assert history + trace == history;
    } else {
      var pa := trace[0];
      assert history + trace == history + [pa] + trace[1..];
      SeenAfter(history, pa, s);
      ReadOne(NoQueues(), r, history, pa, Keeping(x), s);
      hide PolicyRead, FirstSeen, SetOf, TagOf;
      StaysResident(x, s, PolicyRead(r, history, pa, Keeping(x)), history + [pa], trace[1..]);
    }
  }

  /** Under the policy that drops x, the set stays full, and has lost x once three tags have been seen, unless x is
      the newest. */
  ghost predicate Dropped(r: set<nat>, seen: seq<nat>, x: nat) {
    && Holds(r, seen) && (|seen| >= 2 ==> |r| == 2)
    && (|seen| >= 3 && x in seen && x != seen[|seen| - 1] ==> x !in r)
  }

  lemma DropStep(r: set<nat>, seen: seq<nat>, t: nat, x: nat, history: seq<nat>)
    requires Dropped(r, seen, x) && SteadyTag(seen, t)
    ensures Dropped(Refilled(r, t, Dropping(x)(history, r)), WithSeen(seen, [t]), x)
  {
    DroppingKeepsOne(x);
    var kept := Dropping(x)(history, r);
    assert |r| == 2 ==> kept < r && |kept| == 1;
    assert x in r ==> x !in kept;
    SteadyHolds(r, seen, t, kept);
    FewSeen(seen);
    assert t in seen <==> t in Elements(seen);
    hide Dropping, Holds, KeepsOne;
  }

  lemma {:induction false} GoesMissing(x: nat, s: nat, r: Residents, history: seq<nat>, trace: seq<nat>)
    requires s < SETS && Dropped(r[s], FirstSeen(history, s), x) && SteadyFrom(history, trace)
    ensures Dropped(PolicyAfter(r, history, trace, Dropping(x))[s], FirstSeen(history + trace, s), x)
    decreases |trace|
  {
    if trace == [] {
      assert history + trace == history;
    } else {
      var pa := trace[0];
      assert history + trace == history + [pa] + trace[1..];
      SteadyTail(history, trace);
      SeenAfter(history, pa, s);
      NothingSeen(FirstSeen(history, s));
      ReadOne(NoQueues(), r, history, pa, Dropping(x), s);
      if s == SetOf(pa) {
        DropStep(r[s], FirstSeen(history, s), TagOf(pa), x, history);
      }
      hide PolicyRead, FirstSeen, SetOf, TagOf, Dropped, Dropping, SteadyFrom, SteadyTag, Refilled, WithSeen;
      GoesMissing(x, s, PolicyRead(r, history, pa, Dropping(x)), history + [pa], trace[1..]);
    }
  }

  lemma DroppedMisses(trace: seq<nat>, i: nat)
    requires i < |trace| && SteadyFrom([], trace[..i]) && !SteadyRead(trace[..i], trace[i])
    ensures !PolicyAnswers(NoResidents(), [], trace, Dropping(TagOf(trace[i])))[i]
  {
    var s, x := SetOf(trace[i]), TagOf(trace[i]);
    assert [] + trace[..i] == trace[..i];
    assert NoResidents()[s] == {} == Elements([]) && FirstSeen([], s) == [];
    assert !SteadyTag(FirstSeen(trace[..i], s), x);
    hide *;
    StartsDropped(x);
    GoesMissing(x, s, NoResidents(), [], trace[..i]);
    LostByNow(PolicyAfter(NoResidents(), [], trace[..i], Dropping(x))[s], FirstSeen(trace[..i], s), x);
    PolicyAnswerAt(NoResidents(), [], trace, i, Dropping(x));
  }

  lemma StartsDropped(x: nat)
    ensures Dropped({}, [], x)
  {
    assert Elements([]) == {};
  }

  lemma LostByNow(r: set<nat>, seen: seq<nat>, x: nat)
    requires Dropped(r, seen, x) && !SteadyTag(seen, x)
    ensures x !in r
  {
  }

  lemma KeptHits(trace: seq<nat>, i: nat)
    requires i < |trace| && !SteadyRead(trace[..i], trace[i])
    ensures PolicyAnswers(NoResidents(), [], trace, Keeping(TagOf(trace[i])))[i]
  {
    var s, x := SetOf(trace[i]), TagOf(trace[i]);
    assert [] + trace[..i] == trace[..i] && FirstSeen([], s) == [];
    assert x in FirstSeen(trace[..i], s);
    hide *;
    StaysResident(x, s, NoResidents(), [], trace[..i]);
    PolicyAnswerAt(NoResidents(), [], trace, i, Keeping(x));
  }

  /** At its first read of an older tag, some policy answers a trace differently: one that has kept it if round robin
      has not, and one that has dropped it if round robin has it still. */
  lemma Separates(trace: seq<nat>, i: nat) returns (keep: Policy)
    requires i < |trace| && SteadyFrom([], trace[..i]) && !SteadyRead(trace[..i], trace[i])
    ensures KeepsOne(keep) && PolicyAnswers(NoResidents(), [], trace, keep) != Answers(NoQueues(), trace)
  {
    var x := TagOf(trace[i]);
    hide *;
    if Answers(NoQueues(), trace)[i] {
      keep := Dropping(x);
      DroppingKeepsOne(x);
      DroppedMisses(trace, i);
    } else {
      keep := Keeping(x);
      KeepingKeepsOne(x);
      KeptHits(trace, i);
    }
  }

  lemma {:induction false} FirstUnsteady(trace: seq<nat>) returns (i: nat)
    requires !Steady(trace)
    ensures i < |trace| && SteadyFrom([], trace[..i]) && !SteadyRead(trace[..i], trace[i])
    decreases |trace|
  {
    hide SteadyRead;
    var n := |trace| - 1;
    var before := trace[..n];
    if Steady(before) {
      i := n;
      forall j | 0 <= j < n
        ensures trace[..j] == before[..j] == [] + before[..j] && trace[j] == before[j]
      {
      }
    } else {
      i := FirstUnsteady(before);
      assert before[..i] == trace[..i] && before[i] == trace[i];
    }
  }

  /** Every policy that fills invalid ways first and keeps no more than one block of a full set answers a trace as
      round robin does, if and only if the trace is steady: of a set in which it has read three blocks, it reads only
      new blocks and the newest. */
  lemma PolicyInsensitiveIff(trace: seq<nat>)
    ensures Steady(trace) <==>
            forall keep: Policy :: KeepsOne(keep) ==>
              PolicyAnswers(NoResidents(), [], trace, keep) == Answers(NoQueues(), trace)
  {
    if Steady(trace) {
      forall keep: Policy | KeepsOne(keep)
        ensures PolicyAnswers(NoResidents(), [], trace, keep) == Answers(NoQueues(), trace)
      {
        SteadyFromReset(trace);
        SteadySame(NoQueues(), NoResidents(), [], trace, keep);
      }
    } else {
      var i := FirstUnsteady(trace);
      var keep := Separates(trace, i);
    }
  }

  lemma SteadyFromReset(trace: seq<nat>)
    requires Steady(trace)
    ensures SteadyFrom([], trace) && AllHold(NoQueues(), NoResidents(), [])
  {
    hide SteadyRead;
    forall i | 0 <= i < |trace|
      ensures [] + trace[..i] == trace[..i]
    {
    }
    assert Elements([]) == {};
  }

  // ---- beyond two blocks ----------------------------------------------------------------------------------------

  /** Keep the older block. */
  function KeepOlder(history: seq<nat>, full: set<nat>): set<nat> {
    if history != [] && TagOf(history[|history| - 1]) in full then full - {TagOf(history[|history| - 1])} else {}
  }

  /** With a third block the answers do depend on the policy: on this trace round robin misses four times, and
      a policy that keeps the older block hits the last read. */
  lemma ThirdBlockMatters()
    ensures KeepsOne(KeepOlder)
    ensures Answers(NoQueues(), [0, 1024, 2048, 0]) == [false, false, false, false]
    ensures PolicyAnswers(NoResidents(), [], [0, 1024, 2048, 0], KeepOlder) == [false, false, false, true]
  {
    FourMisses();
    LastHits();
    hide Answers, PolicyAnswers;
  }

  lemma FourMisses()
    ensures Answers(NoQueues(), [0, 1024, 2048, 0]) == [false, false, false, false]
  {
    var q1 := AfterRead(NoQueues(), 0);
    var q2 := AfterRead(q1, 1024);
    var q3 := AfterRead(q2, 2048);
    AlwaysMissed(q1, q2, q3);
    assert Answers(AfterRead(q3, 0), []) == [];
    hide *;
    QueueRead(q3, 0, []);
    QueueRead(q2, 2048, [0]);
    QueueRead(q1, 1024, [2048, 0]);
    QueueRead(NoQueues(), 0, [1024, 2048, 0]);
    Appended();
  }

  lemma AlwaysMissed(q1: Queues, q2: Queues, q3: Queues)
    requires q1 == AfterRead(NoQueues(), 0) && q2 == AfterRead(q1, 1024) && q3 == AfterRead(q2, 2048)
    ensures !Hit(NoQueues(), 0) && !Hit(q1, 1024) && !Hit(q2, 2048) && !Hit(q3, 0)
  {
    ThreeTags();
    hide TagOf, SetOf;
    assert q1[0] == [0];
    assert q2[0] == [0, 1];
    assert q3[0] == [1, 2];
  }

  lemma QueueRead(q: Queues, pa: nat, rest: seq<nat>)
    ensures Answers(q, [pa] + rest) == [Hit(q, pa)] + Answers(AfterRead(q, pa), rest)
  {
    assert ([pa] + rest)[0] == pa && ([pa] + rest)[1..] == rest;
    hide Hit, AfterRead;
  }

  /** One read, and then the rest of the trace. */
  lemma OneRead(r: Residents, history: seq<nat>, pa: nat, rest: seq<nat>, keep: Policy)
    ensures PolicyAnswers(r, history, [pa] + rest, keep) ==
            [TagOf(pa) in r[SetOf(pa)]] + PolicyAnswers(PolicyRead(r, history, pa, keep), history + [pa], rest, keep)
  {
    assert ([pa] + rest)[0] == pa && ([pa] + rest)[1..] == rest;
    hide PolicyRead, TagOf, SetOf;
  }

  lemma KeepsBlockZero(r: Residents, history: seq<nat>)
    requires r[0] == {0, 1} && history == [0, 1024]
    ensures PolicyRead(r, history, 2048, KeepOlder)[0] == {0, 2}
  {
    assert KeepOlder(history, r[0]) == {0};
  }

  /** Blocks 0, 1024 and 2048 are three tags of one set. */
  lemma ThreeTags()
    ensures TagOf(0) == 0 && TagOf(1024) == 1 && TagOf(2048) == 2
    ensures SetOf(0) == 0 && SetOf(1024) == 0 && SetOf(2048) == 0
  {
  }

  lemma TwoReads(r1: Residents, r2: Residents)
    requires r1 == PolicyRead(NoResidents(), [], 0, KeepOlder) && r2 == PolicyRead(r1, [0], 1024, KeepOlder)
    ensures NoResidents()[0] == {} && r1[0] == {0} && r2[0] == {0, 1}
  {
    assert r1[0] == {0};
  }

  lemma LastHits()
    ensures PolicyAnswers(NoResidents(), [], [0, 1024, 2048, 0], KeepOlder) == [false, false, false, true]
  {
    var r1 := PolicyRead(NoResidents(), [], 0, KeepOlder);
    var r2 := PolicyRead(r1, [0], 1024, KeepOlder);
    var r3 := PolicyRead(r2, [0, 1024], 2048, KeepOlder);
    var r4 := PolicyRead(r3, [0, 1024, 2048], 0, KeepOlder);
    ThreeTags();
    TwoReads(r1, r2);
    KeepsBlockZero(r2, [0, 1024]);
    assert PolicyAnswers(r4, [0, 1024, 2048, 0], [], KeepOlder) == [];
    hide *;
    OneRead(r3, [0, 1024, 2048], 0, [], KeepOlder);
    OneRead(r2, [0, 1024], 2048, [0], KeepOlder);
    OneRead(r1, [0], 1024, [2048, 0], KeepOlder);
    OneRead(NoResidents(), [], 0, [1024, 2048, 0], KeepOlder);
    Appended();
  }

  lemma Appended()
    ensures [] + [0] == [0] && [0] + [1024] == [0, 1024] && [0, 1024] + [2048] == [0, 1024, 2048]
    ensures [0, 1024, 2048] + [0] == [0, 1024, 2048, 0] && [0] + [] == [0]
    ensures [2048] + [0] == [2048, 0] && [1024] + [2048, 0] == [1024, 2048, 0]
    ensures [0] + [1024, 2048, 0] == [0, 1024, 2048, 0]
  {
  }
}
