/** Interrupt arbitration: which request, if any, the processor grants between two instructions. */
module Interrupts {
  import opened Words
  import opened Psw
  import opened Pirq

  const CLK: nat := 0
  const TTI: nat := 1
  const TTO: nat := 2
  const RK: nat := 3
  const RP: nat := 4
  const TM: nat := 5
  const RL: nat := 6
  const RX: nat := 7
  const DEVICES: nat := 8

  /** The bus request level wired to each device. */
  function Level(d: nat): (level: nat)
    ensures 4 <= level <= 6
  {
    if d == CLK then 6 else if d == TTI || d == TTO then 4 else 5
  }

  datatype Best = Nobody | Device(d: nat)

  function LevelOf(b: Best): nat {
    match b
    case Nobody => 0
    case Device(d) => Level(d)
  }

  /** Of the first n devices, the requesting one at the highest level; the lowest numbered of equals. */
  function Highest(req: seq<bool>, n: nat): (b: Best)
    requires n <= |req|
    ensures b.Device? ==> b.d < n && req[b.d]
    ensures forall d :: 0 <= d < n && req[d] ==>
              b.Device? && Level(d) <= Level(b.d) && (d < b.d ==> Level(d) < Level(b.d))
  {
    if n == 0 then Nobody
    else
      var b := Highest(req, n - 1);
      if req[n - 1] && Level(n - 1) > LevelOf(b) then Device(n - 1) else b
  }

  /** highest_int */
  method HighestInt(req: seq<bool>) returns (best: Best, level: nat)
    requires |req| == DEVICES
    ensures best == Highest(req, DEVICES) && level == LevelOf(best)
  {
    best, level := Nobody, 0;
    var d := 0;
    while d < DEVICES
      invariant d <= DEVICES
      invariant best == Highest(req, d) && level == LevelOf(best)
    {
      if req[d] && Level(d) > level {
        level := Level(d);
        best := Device(d);
      }
      d := d + 1;
    }
  }

  datatype Decision = NoGrant | GrantDevice(d: nat) | GrantProgram

  /** A device is granted over a program request of its own level; either only above the current priority. */
  function Grant(req: seq<bool>, psw: u16, pirq: u16): Decision
    requires |req| == DEVICES
  {
    var best := Highest(req, DEVICES);
    var pir := HighestUpTo(pirq, 7);
    if best.Device? && Level(best.d) > Priority(psw) && Level(best.d) >= pir then GrantDevice(best.d)
    else if pir > Priority(psw) then GrantProgram
    else NoGrant
  }

  method Arbitrate(req: seq<bool>, psw: u16, pirq: u16) returns (decision: Decision)
    requires |req| == DEVICES
    ensures decision == Grant(req, psw, pirq)
  {
    var ipl := Priority(psw);
    var pir := HighestPirLevel(pirq);
    var dev, devipl := HighestInt(req);
    if dev.Device? && devipl > ipl && devipl >= pir {
      return GrantDevice(dev.d);
    }
    if pir > ipl {
      return GrantProgram;
    }
    return NoGrant;
  }

  /** Something may interrupt at a level: a pending device or a program request. */
  ghost predicate RequestAt(req: seq<bool>, pirq: u16, level: nat) {
    (exists d :: 0 <= d < |req| && req[d] && Level(d) == level) || (1 <= level <= 7 && Requested(pirq, level))
  }

  /** Every grant is above the processor's priority and as high as any request outstanding, a device taking it
      from a program request of the same level; and there is no grant only when nothing outstanding is above
      the priority. */
  lemma GrantIsHighest(req: seq<bool>, psw: u16, pirq: u16)
    requires |req| == DEVICES
    ensures match Grant(req, psw, pirq)
            case GrantDevice(d) =>
              && d < DEVICES && req[d] && Level(d) > Priority(psw)
              && (forall level: nat :: RequestAt(req, pirq, level) ==> level <= Level(d))
              && (forall e :: 0 <= e < d && req[e] ==> Level(e) < Level(d))
            case GrantProgram =>
              exists l: nat :: Priority(psw) < l <= 7 && Requested(pirq, l)
                && (forall level: nat :: RequestAt(req, pirq, level) ==> level <= l)
                && (forall d :: 0 <= d < DEVICES && req[d] ==> Level(d) < l)
            case NoGrant =>
              forall level: nat :: RequestAt(req, pirq, level) ==> level <= Priority(psw)
  {
    var best, pir := Highest(req, DEVICES), HighestUpTo(pirq, 7);
    hide HighestUpTo, Requested, Level, Priority;
    forall level: nat | RequestAt(req, pirq, level)
      ensures level <= pir || (best.Device? && level <= Level(best.d))
    {
    }
  }

  /** Some request of a number before d. */
  ghost predicate Earlier(req: seq<bool>, from: nat, d: nat)
    requires d <= |req|
  {
    exists e :: from <= e < d && req[e]
  }

  /** Who is granted, by the wiring: the clock interrupts at level 6, the disks, tape and floppy at 5, the earlier of
      two first, and the terminal at 4, input before output. A device waits for any request of a higher level and
      for a program request above its own. */
  lemma DeviceGrantIff(req: seq<bool>, psw: u16, pirq: u16, d: nat)
    requires |req| == DEVICES && d < DEVICES
    ensures var p, pir := Priority(psw), HighestUpTo(pirq, 7);
            Grant(req, psw, pirq) == GrantDevice(d) <==>
            && req[d]
            && (match d
                case 0 => p < 6 && pir <= 6
                case 1 => p < 4 && pir <= 4 && !req[0] && !Earlier(req, 3, 8)
                case 2 => p < 4 && pir <= 4 && !req[0] && !req[1] && !Earlier(req, 3, 8)
                case _ => p < 5 && pir <= 5 && !req[0] && !Earlier(req, 3, d))
  {
    var best := Highest(req, DEVICES);
    if req[d] {
      assert best.Device? && Level(best.d) >= Level(d);
      assert best == Device(d) <==>
             forall e :: 0 <= e < DEVICES && req[e] ==> Level(e) <= Level(d) && (e < d ==> Level(e) < Level(d));
    }
    hide Highest, HighestUpTo, Priority, Requested;
    if d < 3 {
      forall e | 3 <= e < 8 && req[e]
        ensures Earlier(req, 3, 8)
      {
      }
    } else {
      forall e | 3 <= e < d && req[e]
        ensures Earlier(req, 3, d)
      {
      }
    }
  }

  // ---- over whole runs ------------------------------------------------------------------------------------

  /** What can happen to the request bits: a device raises or drops its own, or the processor reaches an
      instruction boundary with some status word and some program requests. */
  datatype Event = Raise(d: nat) | Drop(d: nat) | Boundary(psw: u16, pirq: u16)

  function Granted(req: seq<bool>, e: Event): Best
    requires |req| == DEVICES
  {
    if e.Boundary? && Grant(req, e.psw, e.pirq).GrantDevice? then Device(Grant(req, e.psw, e.pirq).d) else Nobody
  }

  function After(req: seq<bool>, e: Event): (req': seq<bool>)
    requires |req| == DEVICES
    ensures |req'| == DEVICES
  {
    match e
    case Raise(d) => if d < DEVICES then req[d := true] else req
    case Drop(d) => if d < DEVICES then req[d := false] else req
    case Boundary(_, _) =>
      var g := Granted(req, e);
      if g.Device? then req[g.d := false] else req
  }

  function Run(req: seq<bool>, events: seq<Event>): (req': seq<bool>)
    requires |req| == DEVICES
    ensures |req'| == DEVICES
    decreases |events|
  {
    if events == [] then req else Run(After(req, events[0]), events[1..])
  }

  function Raised(events: seq<Event>, d: nat): nat {
    if events == [] then 0 else (if events[0] == Raise(d) then 1 else 0) + Raised(events[1..], d)
  }

  /** How often device d is vectored in a run. */
  function Vectored(req: seq<bool>, events: seq<Event>, d: nat): nat
    requires |req| == DEVICES
    decreases |events|
  {
    if events == [] then 0
    else (if Granted(req, events[0]) == Device(d) then 1 else 0) + Vectored(After(req, events[0]), events[1..], d)
  }

  function Up(req: seq<bool>, d: nat): nat
    requires d < |req|
  {
    if req[d] then 1 else 0
  }

  /** How often a raise found the request up already, and how often a request was dropped before it was granted. */
  function Merged(req: seq<bool>, events: seq<Event>, d: nat): nat
    requires |req| == DEVICES && d < DEVICES
    decreases |events|
  {
    if events == [] then 0
    else (if events[0] == Raise(d) && req[d] then 1 else 0) + Merged(After(req, events[0]), events[1..], d)
  }

  function Withdrawn(req: seq<bool>, events: seq<Event>, d: nat): nat
    requires |req| == DEVICES && d < DEVICES
    decreases |events|
  {
    if events == [] then 0
    else (if events[0] == Drop(d) && req[d] then 1 else 0) + Withdrawn(After(req, events[0]), events[1..], d)
  }

  /** Over any run every request raised is accounted for: it is vectored once, was merged with one still up, was
      withdrawn, or is up at the end. */
  lemma {:induction false} RequestsAccounted(req: seq<bool>, events: seq<Event>, d: nat)
    requires |req| == DEVICES && d < DEVICES
    ensures Raised(events, d) + Up(req, d) ==
            Vectored(req, events, d) + Merged(req, events, d) + Withdrawn(req, events, d) + Up(Run(req, events), d)
    decreases |events|
  {
    if events != [] {
      RequestsAccounted(After(req, events[0]), events[1..], d);
      OneEvent(req, events[0], d);
      hide Granted, After;
    }
  }

  lemma OneEvent(req: seq<bool>, e: Event, d: nat)
    requires |req| == DEVICES && d < DEVICES
    ensures (if e == Raise(d) then 1 else 0) + Up(req, d) ==
            (if Granted(req, e) == Device(d) then 1 else 0) + (if e == Raise(d) && req[d] then 1 else 0)
            + (if e == Drop(d) && req[d] then 1 else 0) + Up(After(req, e), d)
  {
  }

  /** So each raised request is vectored at most once: a device that stays done and enabled does not interrupt again
      until it raises a fresh request. */
  lemma VectoredAtMostOnce(req: seq<bool>, events: seq<Event>, d: nat)
    requires |req| == DEVICES && d < DEVICES
    ensures Vectored(req, events, d) + Up(Run(req, events), d) <= Raised(events, d) + Up(req, d)
  {
    hide *;
    RequestsAccounted(req, events, d);
  }

  /** How often a device occurs among the grants. */
  function Occurrences(grants: seq<nat>, d: nat): nat {
    if grants == [] then 0 else Occurrences(grants[..|grants| - 1], d) + if grants[|grants| - 1] == d then 1 else 0
  }
}
