/** The controllers together: their requests as the processor's arbiter sees them, over whole runs. */
module Bus {
  import opened Words
  import opened Csr
  import Interrupts
  import Memory
  import Clk
  import Console
  import Rk11
  import Rp11
  import Rl11
  import Tm11
  import Rx11

  /** A program's access to a disk or tape controller. */
  datatype DiskAccess =
    | RkWrite(rkReg: Rk11.Register, value: bv16)
    | RpWrite(rpReg: Rp11.Register, value: bv16)
    | RlWrite(rlReg: Rl11.Register, value: bv16)
    | RlReadStatus
    | TmWrite(tmReg: Tm11.Register, value: bv16)

  /** The clock and the console: a program's access, a typed character, a line-frequency tick. */
  datatype LineEvent =
    | ClockWrite(value: bv16)
    | Tick
    | ConsoleRead(reg: Console.Register)
    | ConsoleWrite(reg: Console.Register, value: bv16)
    | Typed(ch: bv16)

  datatype FloppyAccess = RxControl(value: bv16) | RxWriteData(data: u16) | RxReadData

  /** Anything that touches a controller: an access, the passing of time, bus INIT, or an instruction boundary. */
  datatype Event =
    | Disk(disk: DiskAccess)
    | Line(line: LineEvent)
    | Floppy(floppy: FloppyAccess)
    | Elapse(ns: nat)
    | BusInit
    | Boundary(psw: u16, pirq: u16)

  /** The device whose request bit an access can move. */
  function DiskOf(e: DiskAccess): (d: nat)
    ensures d < Interrupts.DEVICES
  {
    match e
    case RkWrite(_, _) => Interrupts.RK
    case RpWrite(_, _) => Interrupts.RP
    case RlWrite(_, _) => Interrupts.RL
    case RlReadStatus => Interrupts.RL
    case TmWrite(_, _) => Interrupts.TM
  }

  function LineOf(e: LineEvent): (d: nat)
    ensures d < Interrupts.DEVICES
  {
    match e
    case ClockWrite(_) => Interrupts.CLK
    case Tick => Interrupts.CLK
    case ConsoleRead(_) => Interrupts.TTI
    case ConsoleWrite(reg, _) => if reg == Console.Rcsr || reg == Console.Rbuf then Interrupts.TTI else Interrupts.TTO
    case Typed(_) => Interrupts.TTI
  }

  class Peripherals {
    const clk: Clk.LineClock
    const con: Console.Dl11
    const rk: Rk11.Controller
    const rp: Rp11.Controller
    const tm: Tm11.Drive
    const rl: Rl11.Controller
    const rx: Rx11.Controller
    var time: nat

    /** Power-up with the given media. */
    constructor (mem: array<u16>, rkDisk: bool, rlDisk: bool, tape: array<byte>, wrp: bool, floppy: array<byte>)
      requires mem.Length == Memory.MEM_WORDS && floppy.Length == Rx11.DISK_BYTES
      ensures Valid() && RequestsStand() && CompletionsScheduled() && rx.Stands()
      ensures Requests() == seq(Interrupts.DEVICES, _ => false) && rk.attached == rkDisk && rl.attached == rlDisk
    {
      clk := new Clk.LineClock();
      con := new Console.Dl11();
      rk := new Rk11.Controller(rkDisk);
      rp := new Rp11.Controller();
      tm := new Tm11.Drive(mem, tape, true, wrp);
      rl := new Rl11.Controller(rlDisk);
      rx := new Rx11.Controller(floppy, true);
      time := 0;
    }

    ghost function Repr(): set<object>
      reads this
    {
      {this, clk, con, rk, rp, tm, tm.mem, tm.tape, rl, rx, rx.buf, rx.disk}
    }

    /** The interrupt request bits, by device number. */
    function Requests(): (req: seq<bool>)
      reads this, clk, con, rk, rp, tm, rl, rx
      ensures |req| == Interrupts.DEVICES
    {
      [clk.pending, con.ttiPending, con.ttoPending, rk.pending, rp.pending, tm.pending, rl.pending, rx.pending]
    }

    ghost predicate Valid()
      reads Repr()
    {
      && clk.Safe() && con.Safe() && rk.Safe() && rp.Safe() && tm.Shape() && tm.Safe() && rl.Safe()
      && rx.Handshake() && rx.buf != rx.disk
    }

    /** A pending request, the floppy's apart, means its device is done and enabled. */
    ghost predicate RequestsStand()
      reads Repr()
    {
      && (clk.pending ==> Asserts(clk.csr))
      && (con.ttiPending ==> Asserts(con.ttiCsr))
      && (con.ttoPending ==> Asserts(con.ttoCsr))
      && (rk.pending ==> Asserts(rk.rkcs))
      && (rp.pending ==> Asserts(rp.cs1))
      && (tm.pending ==> Asserts(tm.cmd))
      && (rl.pending ==> Asserts(rl.rlcs))
    }

    /** A device that is not done has its completion scheduled: none is ever lost. */
    ghost predicate CompletionsScheduled()
      reads Repr()
    {
      && (Done(con.ttoCsr) || con.ttoBusy) && (Done(rk.rkcs) || rk.busy) && (Done(rp.cs1) || rp.busy)
      && (Done(tm.cmd) || tm.busy) && (Done(rl.rlcs) || rl.busy)
    }

    /** Granting a device's request drops it. */
    method Acknowledge(d: nat)
      requires Valid() && d < Interrupts.DEVICES
      modifies clk`pending, con`ttiPending, con`ttoPending, rk`pending, rp`pending, tm`pending, rl`pending, rx`pending
      ensures Valid() && Requests() == old(Requests())[d := false]
    {
      hide Asserts, Done, Enabled;
      if d < Interrupts.RK {
        AcknowledgeLine(d);
      } else if d < Interrupts.TM {
        AcknowledgeFixed(d);
      } else {
        AcknowledgeOther(d);
      }
    }

    method AcknowledgeLine(d: nat)
      requires Valid() && d < Interrupts.RK
      modifies clk`pending, con`ttiPending, con`ttoPending
      ensures Valid() && Requests() == old(Requests())[d := false]
    {
      hide Asserts, Done, Enabled, Rk11.Controller.Safe, Rp11.Controller.Safe, Rl11.Controller.Safe, Tm11.Drive.Safe,
           Tm11.Drive.Shape, Rx11.Controller.Handshake, Clk.LineClock.Safe, Console.Dl11.Safe;
      if d == Interrupts.CLK {
        clk.Acknowledge();
      } else {
        con.Acknowledge(d == Interrupts.TTI);
      }
    }

    method AcknowledgeFixed(d: nat)
      requires Valid() && (d == Interrupts.RK || d == Interrupts.RP)
      modifies rk`pending, rp`pending
      ensures Valid() && Requests() == old(Requests())[d := false]
    {
      hide Asserts, Done, Enabled, Rk11.Controller.Safe, Rp11.Controller.Safe, Rl11.Controller.Safe, Tm11.Drive.Safe,
           Tm11.Drive.Shape, Rx11.Controller.Handshake, Clk.LineClock.Safe, Console.Dl11.Safe;
      if d == Interrupts.RK {
        rk.Acknowledge();
      } else {
        rp.Acknowledge();
      }
    }

    method AcknowledgeOther(d: nat)
      requires Valid() && Interrupts.TM <= d < Interrupts.DEVICES
      modifies tm`pending, rl`pending, rx`pending
      ensures Valid() && Requests() == old(Requests())[d := false]
    {
      hide Asserts, Done, Enabled, Rk11.Controller.Safe, Rp11.Controller.Safe, Rl11.Controller.Safe, Tm11.Drive.Safe,
           Tm11.Drive.Shape, Rx11.Controller.Handshake, Clk.LineClock.Safe, Console.Dl11.Safe;
      if d == Interrupts.TM {
        tm.Acknowledge();
      } else if d == Interrupts.RL {
        rl.Acknowledge();
      } else {
        rx.Acknowledge();
      }
    }

    /** The interrupt part of an instruction boundary. */
    method AtBoundary(psw: u16, pirq: u16) returns (decision: Interrupts.Decision)
      requires Valid()
      modifies clk`pending, con`ttiPending, con`ttoPending, rk`pending, rp`pending, tm`pending, rl`pending, rx`pending
      ensures Valid() && decision == Interrupts.Grant(old(Requests()), psw, pirq)
      ensures Requests() == Interrupts.After(old(Requests()), Interrupts.Boundary(psw, pirq))
    {
      decision := Interrupts.Arbitrate(Requests(), psw, pirq);
      Interrupts.GrantIsHighest(Requests(), psw, pirq);
      hide *;
      if decision.GrantDevice? {
        Acknowledge(decision.d);
      }
    }

    /** Bus INIT: every request drops, and only the RL and the floppy keep what they were doing. */
    method Initialize()
      requires Valid()
      modifies clk, con, rk, rp, tm, rl, rx`pending
      ensures Valid() && Requests() == seq(Interrupts.DEVICES, _ => false)
    {
      hide Asserts, Done, Enabled, Rk11.Controller.Safe, Rp11.Controller.Safe, Rl11.Controller.Safe, Tm11.Drive.Safe,
           Tm11.Drive.Shape, Rx11.Controller.Handshake, Clk.LineClock.Safe, Console.Dl11.Safe;
      clk.Reset();
      con.Reset();
      InitializeDisks();
      assert Requests()[..3] == [false, false, false];
      assert Requests() == Requests()[..3] + Requests()[3..];
    }

    method InitializeDisks()
      requires Valid()
      modifies rk, rp, tm, rl, rx`pending
      ensures Valid() && Requests()[3..] == [false, false, false, false, false]
    {
      hide Asserts, Done, Enabled;
      rk.Reset();
      rp.Reset();
      tm.Reset();
      rl.Reset();
      rx.Acknowledge();
    }

    /** Every completion that is due. */
    method PollAll()
      requires Valid()
      modifies con, rk, rp, tm, rl, tm.mem, tm.tape
      ensures Valid() && con.ttiPending == old(con.ttiPending)
    {
      hide Asserts, Done, Enabled, Rk11.Controller.Safe, Rp11.Controller.Safe, Rl11.Controller.Safe, Tm11.Drive.Safe,
           Tm11.Drive.Shape, Rx11.Controller.Handshake, Clk.LineClock.Safe, Console.Dl11.Safe;
      con.Poll(time);
      PollFixed();
      PollOthers();
    }

    method PollFixed()
      requires Valid()
      modifies rk, rp
      ensures Valid()
    {
      hide Asserts, Done, Enabled, Rk11.Controller.Safe, Rp11.Controller.Safe, Rl11.Controller.Safe, Tm11.Drive.Safe,
           Tm11.Drive.Shape, Rx11.Controller.Handshake, Clk.LineClock.Safe, Console.Dl11.Safe;
      rk.Poll(time);
      rp.Poll(time);
    }

    method PollOthers()
      requires Valid()
      modifies tm, rl, tm.mem, tm.tape
      ensures Valid()
    {
      hide Asserts, Done, Enabled, Rk11.Controller.Safe, Rp11.Controller.Safe, Rl11.Controller.Safe, Tm11.Drive.Safe,
           Tm11.Drive.Shape, Rx11.Controller.Handshake, Clk.LineClock.Safe, Console.Dl11.Safe;
      tm.Poll(time);
      rl.Poll(time);
    }

    method AccessDisk(e: DiskAccess)
      requires Valid()
      modifies rk, rp, tm, rl
      ensures Valid() && Requests() == old(Requests())[DiskOf(e) := Requests()[DiskOf(e)]]
    {
      hide Asserts, Done, Enabled, Rk11.Controller.Safe, Rp11.Controller.Safe, Rl11.Controller.Safe, Tm11.Drive.Safe,
           Tm11.Drive.Shape, Rx11.Controller.Handshake, Clk.LineClock.Safe, Console.Dl11.Safe;
      match e
      case RkWrite(reg, value) => rk.Write(reg, value, time);
      case RpWrite(reg, value) => rp.Write(reg, value, time);
      case RlWrite(reg, value) => rl.Write(reg, value, time);
      case RlReadStatus => var status := rl.ReadStatus();
      case TmWrite(reg, value) => tm.Write(reg, value, time);
    }

    method AccessLine(e: LineEvent)
      requires Valid()
      modifies clk, con
      ensures Valid() && Requests() == old(Requests())[LineOf(e) := Requests()[LineOf(e)]]
    {
      hide Asserts, Done, Enabled, Rk11.Controller.Safe, Rp11.Controller.Safe, Rl11.Controller.Safe, Tm11.Drive.Safe,
           Tm11.Drive.Shape, Rx11.Controller.Handshake, Clk.LineClock.Safe, Console.Dl11.Safe;
      match e
      case ClockWrite(value) => clk.Write(value);
      case Tick => clk.Tick();
      case ConsoleRead(reg) => var value := con.Read(reg);
      case ConsoleWrite(reg, value) => con.Write(reg, value, time);
      case Typed(ch) => con.Input(ch);
    }

    method AccessFloppy(e: FloppyAccess)
      requires Valid()
      modifies rx, rx.buf, rx.disk
      ensures Valid() && (old(rx.Stands()) ==> (rx.Stands() <==> !LaunchesOver(old(Requests()), Floppy(e))))
    {
      hide Asserts, Done, Enabled, Rk11.Controller.Safe, Rp11.Controller.Safe, Rl11.Controller.Safe, Tm11.Drive.Safe,
           Tm11.Drive.Shape, Rx11.Controller.Handshake, Clk.LineClock.Safe, Console.Dl11.Safe;
      match e
      case RxControl(value) => rx.WriteControl(value);
      case RxWriteData(data) => rx.WriteData(data);
      case RxReadData => var data := rx.ReadData();
    }

    /** One event; at a boundary, the device granted if any. */
    method Happen(e: Event) returns (granted: Interrupts.Best)
      requires Valid()
      modifies Repr()
      ensures Valid()
      ensures granted == GrantAt(old(Requests()), e) && Follows(old(Requests()), e, Requests())
      ensures old(rx.Stands()) ==> (rx.Stands() <==> !LaunchesOver(old(Requests()), e))
    {
      hide Asserts, Done, Enabled, Rk11.Controller.Safe, Rp11.Controller.Safe, Rl11.Controller.Safe, Tm11.Drive.Safe,
           Tm11.Drive.Shape, Rx11.Controller.Handshake, Clk.LineClock.Safe, Console.Dl11.Safe;
      granted := Interrupts.Nobody;
      match e {
        case Disk(disk) => AccessDisk(disk);
        case Line(line) => AccessLine(line);
        case Floppy(floppy) => AccessFloppy(floppy);
        case Elapse(ns) =>
          time := time + ns;
          PollAll();
        case BusInit =>
          Initialize();
          assert rx.pending == Requests()[Interrupts.RX];
        case Boundary(psw, pirq) =>
          var decision := AtBoundary(psw, pirq);
          NeverRaises(old(Requests()), psw, pirq, Interrupts.RX);
          assert rx.pending == Requests()[Interrupts.RX];
          if decision.GrantDevice? {
            granted := Interrupts.Device(decision.d);
          }
      }
    }

    /** Interrupt safety over whole runs. After any sequence of events at all, every pending request other than
        the floppy's stands for a device that is done and enabled, and every device that is not done has its
        completion on the way. The ghost results are the request bits between the events: they begin and end with
        the actual ones, move only as each event can move them, and determine the grants. And of every device:
        each time its request went up is accounted for by one vectoring, one withdrawal, or its being up still.
        The floppy's request stands too until, and only until, a command is launched over it. */
    method Run(events: seq<Event>) returns (grants: seq<nat>, ghost states: seq<Bits>)
      requires Valid()
      modifies Repr()
      ensures Valid() && RequestsStand() && CompletionsScheduled()
      ensures Unfolds(states, events) && grants == GrantsIn(states, events)
      ensures states[0] == old(Requests()) && states[|events|] == Requests()
      ensures forall d :: 0 <= d < Interrupts.DEVICES ==>
                Interrupts.Up(old(Requests()), d) + Rises(states, d)
                == Interrupts.Occurrences(grants, d) + Withdrawals(states, events, d) + Interrupts.Up(Requests(), d)
      ensures old(rx.Stands()) && Calm(states, events, if events == [] then 0 else |events| - 1) ==>
                (rx.Stands() <==> Calm(states, events, |events|))
    {
      grants, states := [], [Requests()];
      ghost var req0, stood := Requests(), rx.Stands();
      var i := 0;
      assert TellsFloppy(stood, rx.Stands(), states, events, 0);
      hide *;
      assert events[..0] == [];
      NoEvents(req0);
      while i < |events|
        invariant i <= |events| && Valid()
        invariant |states| == i + 1 && states[0] == req0 && states[i] == Requests()
        invariant Unfolds(states, events[..i]) && grants == GrantsIn(states, events[..i])
        invariant TellsFloppy(stood, rx.Stands(), states, events, i)
      {
        ghost var stands := rx.Stands();
        var granted := Happen(events[i]);
        assert events[..i + 1] == events[..i] + [events[i]];
        ghost var now := Requests();
        OneMore(states, events[..i], now, events[i]);
        TellsOneMore(stood, stands, rx.Stands(), states, events, i, now);
        states := states + [now];
        if granted.Device? {
          grants := grants + [granted.d];
        }
        i := i + 1;
      }
      assert events[..i] == events;
      forall d | 0 <= d < Interrupts.DEVICES
        ensures Interrupts.Up(req0, d) + Rises(states, d)
                == Interrupts.Occurrences(grants, d) + Withdrawals(states, events, d) + Interrupts.Up(Requests(), d)
      {
        RequestsConserved(states, events, d);
      }
    }
  }

  type Bits = req: seq<bool> | |req| == Interrupts.DEVICES witness seq(8, _ => false)

  function GrantAt(before: Bits, e: Event): Interrupts.Best {
    if e.Boundary? then Interrupts.Granted(before, Interrupts.Boundary(e.psw, e.pirq)) else Interrupts.Nobody
  }

  /** The request bits an event can move, and where a boundary or bus INIT moves them. */
  predicate Follows(before: Bits, e: Event, after: Bits) {
    match e
    case Boundary(psw, pirq) => after == Interrupts.After(before, Interrupts.Boundary(psw, pirq))
    case BusInit => after == seq(Interrupts.DEVICES, _ => false)
    case Line(line) => after == before[LineOf(line) := after[LineOf(line)]]
    case Disk(disk) => after == before[DiskOf(disk) := after[DiskOf(disk)]]
    case Floppy(_) => after[..Interrupts.RX] == before[..Interrupts.RX]
    case Elapse(_) => && after[Interrupts.CLK] == before[Interrupts.CLK]
                      && after[Interrupts.TTI] == before[Interrupts.TTI]
                      && after[Interrupts.RX] == before[Interrupts.RX]
  }

  /** A request goes up only through an access to its own device, or, where the device completes by itself, in time. */
  lemma RisesOnItsOwn(before: Bits, e: Event, after: Bits, d: nat)
    requires Follows(before, e, after) && d < Interrupts.DEVICES && !before[d] && after[d]
    ensures match e
            case Disk(disk) => d == DiskOf(disk)
            case Line(line) => d == LineOf(line)
            case Floppy(_) => d == Interrupts.RX
            case Elapse(_) => d != Interrupts.CLK && d != Interrupts.TTI && d != Interrupts.RX
            case _ => false
  {
    if e.Boundary? {
      NeverRaises(before, e.psw, e.pirq, d);
    } else if e.Floppy? {
      SamePrefix(before, after, Interrupts.RX, d);
    }
  }

  lemma SamePrefix(before: Bits, after: Bits, n: nat, d: nat)
    requires n <= Interrupts.DEVICES && after[..n] == before[..n] && d < Interrupts.DEVICES
    ensures d < n ==> after[d] == before[d]
  {
    if d < n {
      assert after[..n][d] == before[..n][d];
    }
  }

  lemma NeverRaises(before: Bits, psw: u16, pirq: u16, d: nat)
    requires d < Interrupts.DEVICES
    ensures Interrupts.After(before, Interrupts.Boundary(psw, pirq))[d] ==> before[d]
  {
  }

  /** A floppy command given while a request of the floppy's is up, and which does not itself complete at once with
      one. With a request that stands the drive is idle, so the command is taken. */
  predicate LaunchesOver(before: Bits, e: Event) {
    && e.Floppy? && e.floppy.RxControl? && before[Interrupts.RX]
    && !Rx11.Init(e.floppy.value) && Rx11.Go(e.floppy.value) && Rx11.Outlasts(e.floppy.value)
  }

  /** None of the first n events does that. */
  ghost predicate Calm(states: seq<Bits>, events: seq<Event>, n: nat)
    requires n <= |events| && n <= |states|
  {
    forall i :: 0 <= i < n ==> !LaunchesOver(states[i], events[i])
  }

  /** From a request that stood, whether it stands after n events, as far as the first that is not calm. */
  ghost predicate TellsFloppy(stood: bool, stands: bool, states: seq<Bits>, events: seq<Event>, n: nat)
    requires n <= |events| && n <= |states|
  {
    stood && Calm(states, events, if n == 0 then 0 else n - 1) ==> (stands <==> Calm(states, events, n))
  }

  lemma TellsOneMore(stood: bool, stands: bool, stands': bool, states: seq<Bits>, events: seq<Event>, n: nat, now: Bits)
    requires n < |events| && n < |states| && TellsFloppy(stood, stands, states, events, n)
    requires stands ==> (stands' <==> !LaunchesOver(states[n], events[n]))
    ensures TellsFloppy(stood, stands', states + [now], events, n + 1)
  {
    CalmExtends(states, events, n, now);
    if n > 0 && Calm(states, events, n) {
      assert Calm(states, events, n - 1);
    }
    hide Calm, LaunchesOver;
  }

  lemma CalmExtends(states: seq<Bits>, events: seq<Event>, n: nat, now: Bits)
    requires n < |events| && n < |states|
    ensures Calm(states + [now], events, n) == Calm(states, events, n)
    ensures Calm(states + [now], events, n + 1) == (Calm(states, events, n) && !LaunchesOver(states[n], events[n]))
  {
    hide LaunchesOver;
    var longer := states + [now];
    assert forall i :: 0 <= i <= n ==> longer[i] == states[i];
    if Calm(states, events, n) && !LaunchesOver(states[n], events[n]) {
      assert forall i :: 0 <= i < n + 1 ==> !LaunchesOver(longer[i], events[i]);
    }
    if Calm(longer, events, n) {
      assert forall i :: 0 <= i < n ==> !LaunchesOver(states[i], events[i]) by {
        assert forall i :: 0 <= i < n ==> !LaunchesOver(longer[i], events[i]);
      }
    }
    if Calm(longer, events, n + 1) {
      assert !LaunchesOver(longer[n], events[n]) && Calm(longer, events, n);
    }
  }

  ghost predicate Unfolds(states: seq<Bits>, events: seq<Event>) {
    |states| == |events| + 1 && forall i :: 0 <= i < |events| ==> Follows(states[i], events[i], states[i + 1])
  }

  function GrantsIn(states: seq<Bits>, events: seq<Event>): seq<nat>
    requires |states| == |events| + 1
  {
    if events == [] then []
    else
      var n := |events| - 1;
      var granted := GrantAt(states[n], events[n]);
      GrantsIn(states[..n + 1], events[..n]) + if granted.Device? then [granted.d] else []
  }

  /** How often a device's request went up. */
  function Rises(states: seq<Bits>, d: nat): nat
    requires d < Interrupts.DEVICES
  {
    if |states| < 2 then 0
    else
      var n := |states| - 1;
      Rises(states[..n], d) + if !states[n - 1][d] && states[n][d] then 1 else 0
  }

  /** How often it came down again without being vectored. */
  function Withdrawals(states: seq<Bits>, events: seq<Event>, d: nat): nat
    requires |states| == |events| + 1 && d < Interrupts.DEVICES
  {
    if events == [] then 0
    else
      var n := |events| - 1;
      Withdrawals(states[..n + 1], events[..n], d)
      + if states[n][d] && !states[n + 1][d] && GrantAt(states[n], events[n]) != Interrupts.Device(d) then 1 else 0
  }

  lemma NoEvents(req: Bits)
    ensures Unfolds([req], []) && GrantsIn([req], []) == []
  {
  }

  lemma OneMore(states: seq<Bits>, events: seq<Event>, now: Bits, e: Event)
    requires Unfolds(states, events) && Follows(states[|events|], e, now)
    ensures Unfolds(states + [now], events + [e])
    ensures var granted := GrantAt(states[|events|], e);
            GrantsIn(states + [now], events + [e]) ==
            GrantsIn(states, events) + if granted.Device? then [granted.d] else []
  {
    hide Follows, GrantAt;
    assert (states + [now])[..|events| + 1] == states && (events + [e])[..|events|] == events;
  }

  /** Requests are conserved: over any run of a device's request bit, what goes up is vectored once, withdrawn, or
      still up. */
  lemma {:induction false} RequestsConserved(states: seq<Bits>, events: seq<Event>, d: nat)
    requires Unfolds(states, events) && d < Interrupts.DEVICES
    ensures Interrupts.Up(states[0], d) + Rises(states, d)
            == Interrupts.Occurrences(GrantsIn(states, events), d) + Withdrawals(states, events, d)
               + Interrupts.Up(states[|events|], d)
    decreases |events|
  {
    if events != [] {
      var n := |events| - 1;
      RequestsConserved(states[..n + 1], events[..n], d);
      if GrantAt(states[n], events[n]) == Interrupts.Device(d) {
        GrantDrops(states[n], events[n], states[n + 1], d);
      }
      LastGrant(GrantsIn(states[..n + 1], events[..n]), GrantAt(states[n], events[n]), d);
      hide Follows, GrantAt, Interrupts.Occurrences;
    }
  }

  /** A vectored request was up, and comes down. */
  lemma GrantDrops(before: Bits, e: Event, after: Bits, d: nat)
    requires Follows(before, e, after) && d < Interrupts.DEVICES && GrantAt(before, e) == Interrupts.Device(d)
    ensures before[d] && !after[d]
  {
  }

  lemma LastGrant(grants: seq<nat>, granted: Interrupts.Best, d: nat)
    ensures Interrupts.Occurrences(grants + (if granted.Device? then [granted.d] else []), d)
            == Interrupts.Occurrences(grants, d) + if granted == Interrupts.Device(d) then 1 else 0
  {
    if granted.Device? {
      assert (grants + [granted.d])[..|grants|] == grants;
    } else {
      assert grants + [] == grants;
    }
  }
}
