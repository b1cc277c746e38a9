/** The stack: limit checks, pushes and pops. */
module Stack {
  import opened Words
  import opened Kt11
  import opened Memory
  import opened Psw
  import opened Cpu

  const YELLOW_ZONE: nat := 0x100
  const RED_ZONE: nat := 0xE0
  const RED_SP: u16 := 4

  const CPUERR_RED: nat := 4
  const CPUERR_YEL: nat := 8

  function SetBit(w: u16, bit: nat): (r: u16)
    requires bit == CPUERR_RED || bit == CPUERR_YEL
    ensures r / bit % 2 == 1 && r == if w / bit % 2 == 1 then w else w + bit
  {
    if w / bit % 2 == 1 then w else w + bit
  }

  datatype Zone = Clear | Yellow | Red

  /** Where a stack pointer lies against the limit register; only kernel pushes outside a trap's own are held
      to it. */
  function ZoneOf(stklim: u16, psw: u16, inTrapPush: bool, sp: u16): Zone {
    if inTrapPush || Mode(psw) != 0 || sp >= Plus(stklim, YELLOW_ZONE) then Clear
    else if sp >= Plus(stklim, RED_ZONE) then Yellow
    else Red
  }

  /** Of kernel pointers outside a trap's pushes: those from octal 400 above the limit are clear, those from 340 are in
      the yellow zone, those below in the red. At the topmost limit 400 above wraps to nothing, and none is held. */
  lemma ZonesAre(stklim: u16, psw: u16, exempt: bool, sp: u16)
    requires stklim % 0x100 == 0
    ensures Mode(psw) != 0 || exempt ==> ZoneOf(stklim, psw, exempt, sp) == Clear
    ensures Mode(psw) == 0 && !exempt && stklim < 0xFF00 ==>
              ZoneOf(stklim, psw, exempt, sp) ==
              if sp >= stklim + 256 then Clear else if sp >= stklim + 224 then Yellow else Red
    ensures stklim == 0xFF00 ==> ZoneOf(stklim, psw, exempt, sp) == Clear
  {
    assert stklim == stklim / 0x100 * 0x100;
  }

  /** A yellow-zone pointer arms a trap; a red-zone one aborts at once with the kernel stack moved to 4. */
  method CheckStackLimit(cpu: Cpu, sp: u16) returns (o: Outcome<()>)
    requires cpu.Valid()
    modifies cpu`r, cpu`stackfile, cpu`cpuerr, cpu`yellowPending, cpu`servicingStackTrap, cpu`inTrapPush
    ensures cpu.Valid()
    ensures match ZoneOf(cpu.stklim, cpu.psw, old(cpu.inTrapPush), sp)
            case Red =>
              && o == Abort(VEC_BUS) && cpu.servicingStackTrap && !cpu.inTrapPush
              && cpu.cpuerr == SetBit(old(cpu.cpuerr), 4) && cpu.yellowPending == old(cpu.yellowPending)
              && cpu.Flat() == old(cpu.Flat()).(sps := old(cpu.Flat()).sps[0 := 4])
            case zone =>
              && o.Done? && cpu.r == old(cpu.r) && cpu.stackfile == old(cpu.stackfile)
              && cpu.servicingStackTrap == old(cpu.servicingStackTrap) && cpu.inTrapPush == old(cpu.inTrapPush)
              && cpu.yellowPending == (old(cpu.yellowPending) || zone == Yellow)
              && cpu.cpuerr == (if zone == Yellow then SetBit(old(cpu.cpuerr), 8) else old(cpu.cpuerr))
  {
    if cpu.inTrapPush || Mode(cpu.psw) != 0 {
      return Done(());
    }
    var yellow := Plus(cpu.stklim, YELLOW_ZONE);
    if sp >= yellow {
      return Done(());
    }
    if sp >= Plus(cpu.stklim, RED_ZONE) {
      cpu.cpuerr := SetBit(cpu.cpuerr, CPUERR_YEL);
      cpu.yellowPending := true;
      return Done(());
    }
    cpu.cpuerr := SetBit(cpu.cpuerr, CPUERR_RED);
    FlatAfterPut(cpu.r, cpu.regfile, cpu.stackfile, cpu.psw, SP, RED_SP);
    cpu.r := cpu.r[SP := RED_SP];
    cpu.stackfile := cpu.stackfile[0 := RED_SP];
    cpu.servicingStackTrap := true;
    cpu.inTrapPush := false;
    return Abort(VEC_BUS);
  }

  method PushWord(cpu: Cpu, value: u16) returns (o: Outcome<()>)
    requires cpu.Valid()
    modifies cpu`r, cpu`psw, cpu`regfile, cpu`stackfile, cpu`kt, cpu`stklim, cpu`cpuerr, cpu`pirq, cpu`ccFrozen,
             cpu`yellowPending, cpu`servicingStackTrap, cpu`inTrapPush, cpu.mem
    ensures cpu.Valid()
    ensures ZoneOf(old(cpu.stklim), old(cpu.psw), old(cpu.inTrapPush), Plus(old(cpu.r)[SP], -2)) != Red ==>
            cpu.Flat() == Put(old(cpu.Flat()), old(cpu.psw), SP, Plus(old(cpu.r)[SP], -2))
    ensures var p := old(PushTarget(cpu, Plus(cpu.r[SP], -2)));
            o.Done? && p.Ram? ==>
              && cpu.mem[..] == Stored(old(cpu.mem[..]), p.pa, false, value)
              && LayoutOf(cpu.kt) == LayoutOf(old(cpu.kt))
              && cpu.psw == old(cpu.psw) && cpu.r == old(cpu.r)[SP := Plus(old(cpu.r)[SP], -2)]
              && cpu.regfile == old(cpu.regfile) && cpu.stackfile == old(cpu.stackfile)
              && cpu.inTrapPush == old(cpu.inTrapPush) && cpu.stklim == old(cpu.stklim)
              && cpu.servicingStackTrap == old(cpu.servicingStackTrap) && cpu.tracePending == old(cpu.tracePending)
    ensures o.Done? ==> !old(PushTarget(cpu, Plus(cpu.r[SP], -2))).Fault?
    ensures var zone := ZoneOf(old(cpu.stklim), old(cpu.psw), old(cpu.inTrapPush), Plus(old(cpu.r)[SP], -2));
            old(PushTarget(cpu, Plus(cpu.r[SP], -2))).Ram? && zone != Red ==> o.Done?
  {
    cpu.SetReg(SP, Plus(cpu.r[SP], -2));
    var zone := CheckStackLimit(cpu, cpu.r[SP]);
    if zone.Abort? {
      return zone;
    }
    o := cpu.WriteWordMode(cpu.r[SP], Mode(cpu.psw), true, value);
  }

  /** Where a word pushed at sp would go. */
  ghost function PushTarget(cpu: Cpu, sp: u16): Place
    requires cpu.Valid()
    reads cpu
  {
    LocateWord(cpu.kt, cpu.memTop, sp, true, Mode(cpu.psw), true)
  }

  /** A word pushed lies in the data space, where a pop of the same mode finds it. */
  lemma PushedWordPops(cpu: Cpu, sp: u16)
    requires cpu.Valid() && PushTarget(cpu, sp).Ram?
    ensures LocateWord(cpu.kt, cpu.memTop, sp, false, Mode(cpu.psw), true) == PushTarget(cpu, sp)
  {
    WritableIsReadable(cpu.kt, sp, Mode(cpu.psw), true);
    hide Translate;
  }

  method PopWord(cpu: Cpu) returns (o: Outcome<u16>)
    requires cpu.Valid()
    modifies cpu`r, cpu`kt
    ensures cpu.Valid() && (o.Done? ==> LayoutOf(cpu.kt) == LayoutOf(old(cpu.kt)))
    ensures var p := LocateWord(old(cpu.kt), cpu.memTop, old(cpu.r)[SP], false, Mode(cpu.psw), true);
            && (p.Ram? ==> o == Done(cpu.mem[p.pa / 2]))
            && (p.Fault? ==> o == Abort(p.vec))
    ensures o.Done? ==> cpu.r == old(cpu.r)[SP := Plus(old(cpu.r)[SP], 2)]
                        && cpu.Flat() == Put(old(cpu.Flat()), cpu.psw, SP, Plus(old(cpu.r)[SP], 2))
    ensures o.Abort? ==> cpu.r == old(cpu.r)
  {
    o := cpu.ReadWordGen(cpu.r[SP], Mode(cpu.psw), true);
    if o.Done? {
      cpu.SetReg(SP, Plus(cpu.r[SP], 2));
    }
  }
}
