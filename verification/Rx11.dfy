/** The RX11 floppy controller: a command state machine that moves a sector a byte at a time through one data
    register, under a transfer-request handshake. */
module Rx11 {
  import opened Words
  import opened Bytes

  const SECTORS: nat := 26
  const SECTOR_BYTES: nat := 128
  const DISK_BYTES: nat := 256256

  const FILL: bv16 := 0
  const EMPTY: bv16 := 1
  const WRITE: bv16 := 2
  const READ: bv16 := 3
  const WRDEL: bv16 := 6
  const ECODE: bv16 := 7

  // ---- the control register -------------------------------------------------------------------------------

  predicate Done(cs: bv16) { cs & 0x20 != 0 }

  predicate Enabled(cs: bv16) { cs & 0x40 != 0 }

  predicate Requesting(cs: bv16) { cs & 0x80 != 0 }

  predicate Go(cs: bv16) { cs & 0x1 != 0 }

  predicate Init(cs: bv16) { cs & 0x4000 != 0 }

  function Function(cs: bv16): bv16 { (cs >> 1) & 7 }

  /** The control register's bits in their places. */
  lemma ControlBits(cs: bv16)
    ensures cs & 0x40EF == (if Init(cs) then 0x4000 else 0) | (if Requesting(cs) then 0x80 else 0)
                           | (if Enabled(cs) then 0x40 else 0) | (if Done(cs) then 0x20 else 0)
                           | (Function(cs) << 1) | (if Go(cs) then 0x1 else 0)
  {
  }

  /** A command word: the function, go, and the interrupt enable. */
  function Command(func: bv16, enable: bool): (cs: bv16)
    requires func < 8
    ensures Function(cs) == func && Go(cs) && !Init(cs) && Enabled(cs) == enable && cs < 0x80
  {
    (func << 1) | 0x1 | (if enable then 0x40 else 0)
  }

  /** Read status, read error code, and the function the drive ignores. */
  predicate CompletesAtOnce(value: bv16) { Function(value) == 4 || Function(value) == 5 || Function(value) == ECODE }

  /** A command under which a request from before it no longer stands. */
  predicate Outlasts(value: bv16) { !(CompletesAtOnce(value) && Enabled(value)) }

  function Launched(value: bv16): (cs: bv16)
    ensures !Done(cs) && !Requesting(cs) && Enabled(cs) == Enabled(value) && Function(cs) == Function(value)
    ensures cs & 0x5E == value & 0x5E && cs & 0xFFA1 == 0
  {
    value & 0x5E
  }

  function WithRequest(cs: bv16): (c: bv16)
    ensures Requesting(c) && Done(c) == Done(cs) && Enabled(c) == Enabled(cs) && Function(c) == Function(cs)
    ensures c & 0xFF7F == cs & 0xFF7F
  {
    cs | 0x80
  }

  function WithoutRequest(cs: bv16): (c: bv16)
    ensures !Requesting(c) && Done(c) == Done(cs) && Enabled(c) == Enabled(cs) && Function(c) == Function(cs)
    ensures c & 0xFF7F == cs & 0xFF7F
  {
    cs & 0xFF7F
  }

  function WithDone(cs: bv16): (c: bv16)
    ensures Done(c) && Requesting(c) == Requesting(cs) && Enabled(c) == Enabled(cs) && Function(c) == Function(cs)
    ensures c & 0xFFDF == cs & 0xFFDF
  {
    cs | 0x20
  }

  function WithError(cs: bv16): (c: bv16)
    ensures Done(c) == Done(cs) && Requesting(c) == Requesting(cs) && Enabled(c) == Enabled(cs)
    ensures Function(c) == Function(cs) && c & 0x7FFF == cs & 0x7FFF && c & 0x8000 == 0x8000
  {
    cs | 0x8000
  }

  function WithEnableOf(cs: bv16, value: bv16): (c: bv16)
    ensures Enabled(c) == Enabled(value)
    ensures Done(c) == Done(cs) && Requesting(c) == Requesting(cs) && Function(c) == Function(cs)
    ensures c & 0xFFBF == cs & 0xFFBF
  {
    (cs & 0xFFBF) | (value & 0x40)
  }

  // Bits of the error and status register: 7 drive ready, 6 deleted data, 2 initialize done.

  function DriveReady(es: byte, attached: bool): (r: byte)
    ensures (r >= 128 <==> attached) && r % 128 == es % 128
  {
    es % 128 + if attached then 128 else 0
  }

  function WithDeletedData(es: byte): (r: byte)
    ensures r / 64 % 2 == 1 && r / 128 == es / 128 && r % 64 == es % 64
  {
    if es / 64 % 2 == 1 then es else es + 64
  }

  /** Starting a transfer keeps only the initialize-done bit. */
  function ErrorsCleared(es: byte): (r: byte)
    ensures r in {0, 4} && r / 4 % 2 == es / 4 % 2
  {
    es / 4 % 2 * 4
  }

  // ---- the disk ---------------------------------------------------------------------------------------------

  predicate ValidSector(s: byte, t: byte) {
    1 <= s <= 26 && t < 77
  }

  /** Where a sector starts on the disk. */
  function SectorStart(s: byte, t: byte): (da: nat)
    requires ValidSector(s, t)
    ensures da + SECTOR_BYTES <= DISK_BYTES && da % SECTOR_BYTES == 0
  {
    (t * SECTORS + (s - 1)) * SECTOR_BYTES
  }

  /** The disk is its tracks in order, and a track its sectors in order. */
  lemma DiskOrder(s: byte, t: byte)
    requires ValidSector(s, t)
    ensures SectorStart(1, 0) == 0 && SectorStart(26, 76) + 128 == DISK_BYTES
    ensures s < 26 ==> SectorStart(s + 1, t) == SectorStart(s, t) + 128
    ensures t < 76 ==> SectorStart(1, t + 1) == SectorStart(26, t) + 128
  {
  }

  /** Different sectors share no byte. */
  lemma SectorsApart(s: byte, t: byte, s': byte, t': byte)
    requires ValidSector(s, t) && ValidSector(s', t') && (s != s' || t != t')
    ensures SectorStart(s, t) + SECTOR_BYTES <= SectorStart(s', t')
            || SectorStart(s', t') + SECTOR_BYTES <= SectorStart(s, t)
  {
  }

  // ---- the controller ---------------------------------------------------------------------------------------

  datatype State = Idle | Sector | Track | Transferring | Filling | Emptying | Completing

  class Controller {
    var rxcs: bv16
    var rxdb: byte
    var rxes: byte
    var ecode: byte
    var track: byte
    var sector: byte
    var state: State
    var bptr: nat
    var curTrack: byte
    var attached: bool
    var pending: bool
    const buf: array<byte>
    const disk: array<byte>

    /** Power-up: with a floppy the drive initializes, without one that fails with code octal 010. */
    constructor (disk: array<byte>, attached: bool)
      requires disk.Length == DISK_BYTES
      ensures Handshake() && state == Idle && !pending && fresh(buf)
      ensures this.disk == disk && this.attached == attached
    {
      this.disk, this.attached := disk, attached;
      buf := new byte[SECTOR_BYTES](_ => 0);
      rxes := if attached then 0x84 else 0;
      ecode := if attached then 0 else 8;
      rxcs := if attached then 0x20 else 0x8020;
      rxdb := if attached then 0x84 else 0;
      track, sector, curTrack, bptr, state, pending := 0, 0, 0, 0, Idle, false;
    }

    /** Between register accesses: idle exactly when done, done exactly when no byte is being asked for, and
        the buffer pointer within the buffer. */
    predicate Handshake()
      reads this
    {
      && Shape()
      && (state == Idle <==> Done(rxcs)) && (Done(rxcs) <==> !Requesting(rxcs))
      && state != Transferring && state != Completing
      && (state == Filling ==> bptr < SECTOR_BYTES) && (state == Emptying ==> bptr > 0)
    }

    predicate Shape()
      reads this
    {
      buf.Length == SECTOR_BYTES && disk.Length == DISK_BYTES && bptr <= SECTOR_BYTES
    }

    /** The request, if up, is for a controller that is done and enabled. */
    predicate Stands()
      reads this
    {
      pending ==> Done(rxcs) && Enabled(rxcs)
    }

    /** The processor's grant drops the request. */
    method Acknowledge()
      requires Handshake()
      modifies `pending
      ensures Handshake() && !pending
    {
      pending := false;
    }

    /** rx_done: the flags fold into the error register, and unless the data register is to be left alone it
        takes their value and the error code is posted. */
    method Complete(newEcode: byte, post: bool)
      requires Shape() && !Requesting(rxcs)
      modifies `state, `rxcs, `rxes, `ecode, `rxdb, `pending
      ensures Handshake() && state == Idle && Enabled(rxcs) == Enabled(old(rxcs))
      ensures pending == (old(pending) || Enabled(rxcs))
      ensures if post then rxdb == rxes && ecode == newEcode else rxdb == old(rxdb) && ecode == old(ecode)
      ensures rxes == DriveReady(old(rxes), attached)
      ensures rxcs == if post && newEcode != 0 then WithError(WithDone(old(rxcs))) else WithDone(old(rxcs))
    {
      hide Function, Enabled, Done, Requesting, WithDone, WithError, DriveReady;
      state := Idle;
      rxcs := WithDone(rxcs);
      if Enabled(rxcs) {
        pending := true;
      }
      rxes := DriveReady(rxes, attached);
      if post && newEcode != 0 {
        rxcs := WithError(rxcs);
      }
      if post {
        ecode := newEcode;
        rxdb := rxes;
      }
    }

    /** The sector transfer itself, with the three ways it can be refused. */
    method Transfer()
      requires Shape() && buf != disk && state == Transferring && !Requesting(rxcs)
      modifies `state, `rxcs, `rxes, `ecode, `rxdb, `pending, `curTrack, buf, disk
      ensures Handshake() && state == Idle
      ensures ecode == if !attached then 0x48 else if track >= 77 then 0x20
                       else if sector == 0 || sector > 26 then 0x38 else 0
      ensures Enabled(rxcs) == Enabled(old(rxcs)) && pending == (old(pending) || Enabled(rxcs))
      ensures rxes == DriveReady(if ecode == 0 && Function(old(rxcs)) == WRDEL then WithDeletedData(old(rxes))
                                 else old(rxes), attached)
      ensures ecode != 0 || Function(old(rxcs)) != READ ==> buf[..] == old(buf[..])
      ensures ecode != 0 || Function(old(rxcs)) == READ ==> disk[..] == old(disk[..])
      ensures ecode == 0 && Function(old(rxcs)) == READ ==>
                var da := SectorStart(sector, track); buf[..] == disk[da..da + SECTOR_BYTES]
      ensures ecode == 0 && Function(old(rxcs)) != READ ==>
                disk[..] == Overlaid(old(disk[..]), SectorStart(sector, track), buf[..])
    {
      hide Function, Enabled, Done, Requesting, WithDeletedData;
      if !attached {
        Complete(0x48, true);
        return;
      }
      if track >= 77 {
        Complete(0x20, true);
        return;
      }
      curTrack := track;
      if sector == 0 || sector > 26 {
        Complete(0x38, true);
        return;
      }
      var da := SectorStart(sector, track);
      if Function(rxcs) == WRDEL {
        rxes := WithDeletedData(rxes);
      }
      if Function(rxcs) == READ {
        CopyIn(da);
      } else {
        CopyOut(da);
      }
      Complete(0, true);
    }

    method CopyIn(da: nat)
      requires Shape() && buf != disk && da + SECTOR_BYTES <= DISK_BYTES
      modifies buf
      ensures buf[..] == disk[da..da + SECTOR_BYTES]
    {
      var i := 0;
      while i < SECTOR_BYTES
        invariant i <= SECTOR_BYTES
        invariant buf[..i] == disk[da..da + i]
      {
        buf[i] := disk[da + i];
        i := i + 1;
      }
    }

    method CopyOut(da: nat)
      requires Shape() && buf != disk && da + SECTOR_BYTES <= DISK_BYTES
      modifies disk
      ensures disk[..] == Overlaid(old(disk[..]), da, buf[..])
    {
      var i := 0;
      while i < SECTOR_BYTES
        invariant i <= SECTOR_BYTES
        invariant disk[..da] == old(disk[..da]) && disk[da..da + i] == buf[..i]
        invariant disk[da + i..] == old(disk[da + i..])
      {
        disk[da + i] := buf[i];
        i := i + 1;
      }
      assert disk[..] == disk[..da] + disk[da..da + i] + disk[da + i..];
    }

    /** Filling takes the byte in the data register, and is over with the last one. */
    method FillStep()
      requires Shape() && buf != disk && state == Filling && bptr < SECTOR_BYTES && !Requesting(rxcs) && !Done(rxcs)
      modifies `state, `rxcs, `rxes, `ecode, `rxdb, `pending, `bptr, buf
      ensures Handshake() && bptr == old(bptr) + 1 && buf[..] == old(buf[..])[old(bptr) := old(rxdb)]
      ensures state == if bptr == SECTOR_BYTES then Idle else Filling
      ensures Enabled(rxcs) == Enabled(old(rxcs)) && pending == (old(pending) || (state == Idle && Enabled(rxcs)))
    {
      hide Function, Enabled, Done, Requesting, WithRequest;
      buf[bptr] := rxdb;
      bptr := bptr + 1;
      if bptr < SECTOR_BYTES {
        rxcs := WithRequest(rxcs);
      } else {
        Complete(0, true);
      }
    }

    /** Emptying offers the next byte, and is over once there is none. */
    method EmptyStep()
      requires Shape() && state == Emptying && !Requesting(rxcs) && !Done(rxcs)
      modifies `state, `rxcs, `rxes, `ecode, `rxdb, `pending, `bptr
      ensures Handshake() && Enabled(rxcs) == Enabled(old(rxcs))
      ensures if old(bptr) == SECTOR_BYTES then state == Idle
              else state == Emptying && bptr == old(bptr) + 1 && rxdb == buf[bptr - 1]
      ensures pending == (old(pending) || (state == Idle && Enabled(rxcs)))
    {
      hide Function, Enabled, Done, Requesting, WithRequest;
      if bptr >= SECTOR_BYTES {
        Complete(0, true);
      } else {
        rxdb := buf[bptr];
        bptr := bptr + 1;
        rxcs := WithRequest(rxcs);
      }
    }

    /** Controller initialize: rx_reset_state */
    method Initialize()
      requires Shape()
      modifies `rxcs, `rxes, `rxdb, `ecode, `state, `bptr, `pending
      ensures Handshake() && state == Idle && !pending && rxcs == 0x20 && ecode == 0 && bptr == 0
      ensures rxes == DriveReady(4, attached) && rxdb == rxes
    {
      rxcs := 0x20;
      rxes := 4 + if attached then 128 else 0;
      rxdb := rxes;
      ecode := 0;
      state := Idle;
      bptr := 0;
      pending := false;
    }

    /** A go with the controller idle. The function alone decides what is asked for next. */
    method Launch(value: bv16)
      requires Shape() && state == Idle
      modifies `state, `rxcs, `rxes, `ecode, `rxdb, `pending, `bptr
      ensures Handshake() && Enabled(rxcs) == Enabled(value)
      ensures match Function(value)
              case 0 => state == Filling && bptr == 0 && pending == old(pending)
              case 1 => state == Emptying && bptr == 1 && rxdb == buf[0] && pending == old(pending)
              case 2 => state == Sector && Function(rxcs) == WRITE && pending == old(pending)
              case 3 => state == Sector && Function(rxcs) == READ && pending == old(pending)
              case 6 => state == Sector && Function(rxcs) == WRDEL && pending == old(pending)
              case 7 => state == Idle && rxdb == old(ecode) && pending == (old(pending) || Enabled(value))
              case _ => state == Idle && rxdb == rxes && pending == (old(pending) || Enabled(value))
    {
      hide Function, Enabled, Done, Requesting, WithRequest, Launched, ErrorsCleared;
      rxcs := Launched(value);
      bptr := 0;
      var func := Function(rxcs);
      if func == FILL {
        state := Filling;
        rxcs := WithRequest(rxcs);
      } else if func == EMPTY {
        state := Emptying;
        EmptyStep();
      } else if func == READ || func == WRITE || func == WRDEL {
        state := Sector;
        rxcs := WithRequest(rxcs);
        rxes := ErrorsCleared(rxes);
      } else {
        state := Completing;
        if func == ECODE {
          rxdb := ecode;
          Complete(0, false);
        } else {
          Complete(0, true);
        }
      }
    }

    /** A write of the control register that is not an effective go only moves the interrupt enable. */
    method SetEnable(value: bv16)
      requires Handshake()
      modifies `rxcs, `pending
      ensures Handshake() && Enabled(rxcs) == Enabled(value) && Function(rxcs) == Function(old(rxcs))
      ensures pending == (Enabled(value) && (old(pending) || (Done(rxcs) && !Enabled(old(rxcs)))))
    {
      hide Function, Enabled, Done, Requesting, WithEnableOf;
      if !Enabled(value) {
        pending := false;
      } else if Done(rxcs) && !Enabled(rxcs) {
        pending := true;
      }
      rxcs := WithEnableOf(rxcs, value);
    }

    /** A go does not drop the request. A new command leaves it standing if and only if there was none or the
        command completes at once and is enabled; no other write ever leaves one that does not stand. */
    method WriteControl(value: bv16)
      requires Handshake()
      modifies `state, `rxcs, `rxes, `ecode, `rxdb, `pending, `bptr
      ensures Handshake()
      ensures if !Init(value) && Go(value) && old(state) == Idle
              then Stands() <==> !(old(pending) && Outlasts(value))
              else old(Stands()) ==> Stands()
      ensures old(Stands()) ==> (Stands() <==> !(old(pending) && !Init(value) && Go(value) && Outlasts(value)))
      ensures !Init(value) ==> Enabled(rxcs) == Enabled(value)
      ensures !Init(value) && Go(value) && old(state) == Idle ==>
                pending == (old(pending) || (CompletesAtOnce(value) && Enabled(value)))
      ensures Init(value) ==> state == Idle && !pending
      ensures !Init(value) && Go(value) && old(state) == Idle ==>
              match Function(value)
              case 0 => state == Filling && bptr == 0
              case 1 => state == Emptying && bptr == 1 && rxdb == buf[0]
              case 2 => state == Sector && Function(rxcs) == WRITE
              case 3 => state == Sector && Function(rxcs) == READ
              case 6 => state == Sector && Function(rxcs) == WRDEL
              case 7 => state == Idle && rxdb == old(ecode)
              case _ => state == Idle && rxdb == rxes
      ensures !Init(value) && (!Go(value) || old(state) != Idle) ==>
                state == old(state) && bptr == old(bptr) && rxdb == old(rxdb)
    {
      assert Function(value) < 8;
      hide Function, Go, Init, Enabled, Done, Requesting;
      if Init(value) {
        Initialize();
      } else if Go(value) && state == Idle {
        Launch(value);
      } else {
        SetEnable(value);
      }
    }

    /** A write of the data register counts only when a byte has been asked for. While emptying, it replaces the
        byte on offer and moves nothing on. */
    method WriteData(value: nat)
      requires Handshake() && buf != disk && value < 0x1_0000
      modifies `state, `rxcs, `rxes, `ecode, `rxdb, `pending, `bptr, `sector, `track, `curTrack, buf, disk
      ensures Handshake() && (old(Stands()) ==> Stands()) && Enabled(rxcs) == Enabled(old(rxcs))
      ensures pending == (old(pending) || (old(state) != Idle && state == Idle && Enabled(rxcs)))
      ensures old(state) == Idle ==> state == Idle && rxcs == old(rxcs) && rxdb == old(rxdb)
      ensures old(state) != Track ==> disk[..] == old(disk[..])
      ensures old(state) != Track && old(state) != Filling ==> buf[..] == old(buf[..])
      ensures old(state) == Filling ==>
                && bptr == old(bptr) + 1 && buf[..] == old(buf[..])[old(bptr) := value % 256]
                && state == (if bptr == SECTOR_BYTES then Idle else Filling)
      ensures old(state) == Sector ==>
                state == Track && sector == value % 128 && Function(rxcs) == Function(old(rxcs))
      ensures old(state) == Track ==>
                && state == Idle && track == value % 256 && sector == old(sector)
                && (attached && ValidSector(sector, track) ==>
                      var da := SectorStart(sector, track);
                      if Function(old(rxcs)) == READ
                      then buf[..] == old(disk[..])[da..da + SECTOR_BYTES] && disk[..] == old(disk[..])
                      else disk[..] == Overlaid(old(disk[..]), da, old(buf[..])) && buf[..] == old(buf[..]))
                && (!(attached && ValidSector(sector, track)) ==> disk[..] == old(disk[..]) && ecode != 0)
    {
      hide Function, Enabled, Done, Requesting, WithRequest, WithoutRequest, Overlaid, SectorStart, ValidSector;
      if state == Idle || !Requesting(rxcs) {
        return;
      }
      rxdb := value % 256;
      if state == Emptying {
        return;
      }
      rxcs := WithoutRequest(rxcs);
      if state == Filling {
        FillStep();
      } else if state == Sector {
        sector := rxdb % 128;
        rxcs := WithRequest(rxcs);
        state := Track;
      } else {
        TakeTrack();
      }
    }

    /** The track is the last byte a read or write asks for. */
    method TakeTrack()
      requires Shape() && buf != disk && state == Track && !Requesting(rxcs)
      modifies `state, `rxcs, `rxes, `ecode, `rxdb, `pending, `track, `curTrack, buf, disk
      ensures Handshake() && state == Idle && track == old(rxdb)
      ensures Enabled(rxcs) == Enabled(old(rxcs)) && pending == (old(pending) || Enabled(rxcs))
      ensures attached && ValidSector(sector, track) ==>
                var da := SectorStart(sector, track);
                if Function(old(rxcs)) == READ
                then buf[..] == old(disk[..])[da..da + SECTOR_BYTES] && disk[..] == old(disk[..])
                else disk[..] == Overlaid(old(disk[..]), da, old(buf[..])) && buf[..] == old(buf[..])
      ensures !(attached && ValidSector(sector, track)) ==> disk[..] == old(disk[..]) && ecode != 0
    {
      hide Function, Enabled, Done, Requesting, Overlaid, SectorStart;
      track := rxdb;
      state := Transferring;
      Transfer();
    }

    function ReadControl(): (value: bv16)
      reads this
      ensures Done(value) == Done(rxcs) && Requesting(value) == Requesting(rxcs) && Enabled(value) == Enabled(rxcs)
      ensures value & 0x8000 == rxcs & 0x8000 && value & 0x7F1F == 0
    {
      rxcs & 0x80E0
    }

    /** Reading the data register while emptying takes the byte and brings up the next. */
    method ReadData() returns (d: byte)
      requires Handshake()
      modifies `state, `rxcs, `rxes, `ecode, `rxdb, `pending, `bptr
      ensures Handshake() && d == old(rxdb) && (old(Stands()) ==> Stands())
      ensures old(state) != Emptying ==> state == old(state) && rxdb == old(rxdb) && rxcs == old(rxcs)
      ensures old(state) == Emptying ==>
                if old(bptr) == SECTOR_BYTES then state == Idle
                else state == Emptying && bptr == old(bptr) + 1 && rxdb == buf[bptr - 1]
    {
      hide Function, Enabled, Done, Requesting, WithoutRequest;
      d := rxdb;
      if state == Emptying && Requesting(rxcs) {
        rxcs := WithoutRequest(rxcs);
        EmptyStep();
      }
    }
  }

  // ---- a program's use of it ----------------------------------------------------------------------------------

  /** Filling asks for exactly 128 bytes and then is done, with a request if enabled. */
  method Fill(rx: Controller, data: seq<byte>, enable: bool)
    requires rx.Handshake() && rx.buf != rx.disk && rx.state == Idle && |data| == SECTOR_BYTES
    modifies rx, rx.buf, rx.disk
    ensures rx.Handshake() && rx.state == Idle && rx.attached == old(rx.attached)
    ensures rx.buf[..] == data && rx.disk[..] == old(rx.disk[..])
    ensures Enabled(rx.rxcs) == enable && rx.pending == (old(rx.pending) || enable)
  {
    hide Enabled;
    rx.WriteControl(Command(FILL, enable));
    var i := 0;
    while i < SECTOR_BYTES
      invariant i <= SECTOR_BYTES && rx.Handshake() && rx.attached == old(rx.attached)
      invariant rx.bptr == i && rx.state == if i == SECTOR_BYTES then Idle else Filling
      invariant rx.buf[..i] == data[..i] && rx.disk[..] == old(rx.disk[..])
      invariant Enabled(rx.rxcs) == enable && rx.pending == (old(rx.pending) || (enable && i == SECTOR_BYTES))
    {
      rx.WriteData(data[i]);
      i := i + 1;
    }
  }

  method WriteSector(rx: Controller, s: byte, t: byte)
    requires rx.Handshake() && rx.buf != rx.disk && rx.state == Idle && rx.attached && ValidSector(s, t)
    modifies rx, rx.buf, rx.disk
    ensures rx.Handshake() && rx.state == Idle && rx.attached && rx.buf[..] == old(rx.buf[..])
    ensures rx.disk[..] == Overlaid(old(rx.disk[..]), SectorStart(s, t), old(rx.buf[..]))
  {
    assert rx.buf.Length == SECTOR_BYTES && rx.disk.Length == DISK_BYTES;
    assert s % 128 == s && s % 256 == s && t % 256 == t;
    hide *;
    rx.WriteControl(Command(WRITE, false));
    rx.WriteData(s);
    rx.WriteData(t);
  }

  method ReadSector(rx: Controller, s: byte, t: byte)
    requires rx.Handshake() && rx.buf != rx.disk && rx.state == Idle && rx.attached && ValidSector(s, t)
    modifies rx, rx.buf, rx.disk
    ensures rx.Handshake() && rx.state == Idle && rx.attached && rx.disk[..] == old(rx.disk[..])
    ensures rx.buf[..] == rx.disk[SectorStart(s, t)..SectorStart(s, t) + SECTOR_BYTES]
  {
    assert s % 128 == s && s % 256 == s && t % 256 == t;
    hide *;
    rx.WriteControl(Command(READ, false));
    rx.WriteData(s);
    rx.WriteData(t);
  }

  method Empty(rx: Controller) returns (data: seq<byte>)
    requires rx.Handshake() && rx.state == Idle
    modifies rx
    ensures rx.Handshake() && rx.state == Idle && rx.attached == old(rx.attached) && data == rx.buf[..]
  {
    rx.WriteControl(Command(EMPTY, false));
    data := [];
    while |data| < SECTOR_BYTES
      invariant |data| <= SECTOR_BYTES && rx.Handshake() && rx.attached == old(rx.attached)
      invariant rx.state == if |data| == SECTOR_BYTES then Idle else Emptying
      invariant |data| < SECTOR_BYTES ==> rx.bptr == |data| + 1 && rx.rxdb == rx.buf[|data|]
      invariant data == rx.buf[..|data|]
    {
      var d := rx.ReadData();
      data := data + [d];
    }
  }

  /** What is written to a sector comes back from it, through a buffer reused for something else meanwhile, and
      every other sector of the disk is as it was. */
  method SectorRoundTrip(rx: Controller, data: seq<byte>, s: byte, t: byte, other: seq<byte>)
    returns (back: seq<byte>)
    requires rx.Handshake() && rx.buf != rx.disk && rx.state == Idle && rx.attached && ValidSector(s, t)
    requires |data| == SECTOR_BYTES && |other| == SECTOR_BYTES
    modifies rx, rx.buf, rx.disk
    ensures rx.Handshake() && rx.state == Idle && back == data
    ensures forall s', t' :: ValidSector(s', t') && (s' != s || t' != t) ==>
              var da := SectorStart(s', t');
              rx.disk[da..da + SECTOR_BYTES] == old(rx.disk[da..da + SECTOR_BYTES])
  {
    ghost var disk0 := rx.disk[..];
    Fill(rx, data, false);
    WriteSector(rx, s, t);
    Fill(rx, other, false);
    ReadSector(rx, s, t);
    back := Empty(rx);
    OverlaidThere(disk0, SectorStart(s, t), data);
    forall s', t' | ValidSector(s', t') && (s' != s || t' != t)
      ensures var da := SectorStart(s', t'); rx.disk[da..da + SECTOR_BYTES] == disk0[da..da + SECTOR_BYTES]
    {
      SectorsApart(s, t, s', t');
      OverlaidElsewhere(disk0, SectorStart(s, t), data, SectorStart(s', t'), SECTOR_BYTES);
    }
  }

  // ---- the request, which a go does not drop -----------------------------------------------------------------

  /** The other controllers drop a completion's request when a new command starts. This one does not: a fill that
      interrupts when it is over, followed by an empty before the interrupt is taken, leaves the request of the one
      up while the other is in progress. */
  method StaleRequest(rx: Controller, data: seq<byte>) returns (raised: bool)
    requires rx.Handshake() && rx.buf != rx.disk && rx.state == Idle && |data| == SECTOR_BYTES
    modifies rx, rx.buf, rx.disk
    ensures rx.Handshake() && raised && rx.pending && !rx.Stands()
  {
    Fill(rx, data, true);
    raised := rx.pending && rx.Stands();
    assert Outlasts(Command(EMPTY, true));
    rx.WriteControl(Command(EMPTY, true));
  }
}
