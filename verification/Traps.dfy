/** Traps, the return from them, and the moves between address spaces. All of them switch banks through the
    status word, and none of them can be told apart from operations on a flat register file. */
module Traps {
  import opened Words
  import opened Kt11
  import opened Memory
  import opened Psw
  import opened Cpu
  import opened Recovery
  import opened Stack
  import opened Operands
  import opened VirtualMemory

  const MMR0_IC: nat := 0x80

  function InstructionComplete(mmr0: u16): (r: u16)
    ensures r / 0x80 % 2 == 1 && r == if mmr0 / 0x80 % 2 == 1 then mmr0 else mmr0 + 0x80
  {
    if mmr0 / 0x80 % 2 == 1 then mmr0 else mmr0 + MMR0_IC
  }

  lemma CompleteKeepsEnable(mmr0: u16)
    ensures Enabled(InstructionComplete(mmr0)) == Enabled(mmr0)
  {
  }

  /** Where a stack word goes: the data space of the mode whose stack it is. */
  function StackPlace(kt: Mapping, memTop: nat, mode: nat, sp: u16, write: bool): (p: Place)
    requires WellFormed(kt) && mode < 4
    ensures p.Ram? ==> p.pa < IOPAGE_TOP
  {
    LocateWord(kt, memTop, sp, write, mode, true)
  }

  method ReadVector(cpu: Cpu, vector: u16) returns (o: Outcome<u16>)
    requires cpu.Valid()
    modifies cpu`kt
    ensures cpu.Valid() && (o.Done? ==> LayoutOf(cpu.kt) == LayoutOf(old(cpu.kt)))
    ensures var p := StackPlace(old(cpu.kt), cpu.memTop, 0, vector, false);
            p.Ram? ==> o == Done(cpu.mem[p.pa / 2])
  {
    o := cpu.ReadWordGen(vector, 0, true);
  }

  /** Both words a trap pushes below a stack pointer lie in installed memory. */
  predicate HasRoom(m: Mapping, memTop: nat, mode: nat, sp: u16)
    requires WellFormed(m) && mode < 4
  {
    && StackPlace(m, memTop, mode, Plus(sp, -2), true).Ram?
    && StackPlace(m, memTop, mode, Plus(Plus(sp, -2), -2), true).Ram?
  }

  /** The two pushes of a trap, exempt from the stack limit. */
  method PushState(cpu: Cpu, oldPsw: u16, oldPc: u16) returns (o: Outcome<()>)
    requires cpu.Valid()
    modifies cpu`r, cpu`psw, cpu`regfile, cpu`stackfile, cpu`kt, cpu`stklim, cpu`cpuerr, cpu`pirq, cpu`ccFrozen,
             cpu`yellowPending, cpu`servicingStackTrap, cpu`inTrapPush, cpu.mem
    ensures cpu.Valid()
    ensures var mode := Mode(old(cpu.psw));
            var sp1 := Plus(old(cpu.r)[SP], -2);
            var sp2 := Plus(sp1, -2);
            var p1 := StackPlace(old(cpu.kt), cpu.memTop, mode, sp1, true);
            var p2 := StackPlace(old(cpu.kt), cpu.memTop, mode, sp2, true);
            o.Done? && p1.Ram? && p2.Ram? ==>
              && cpu.mem[..] == Stored(Stored(old(cpu.mem[..]), p1.pa, false, oldPsw), p2.pa, false, oldPc)
              && cpu.psw == old(cpu.psw) && cpu.r == old(cpu.r)[SP := sp2]
              && cpu.Flat() == old(cpu.Flat()).(sps := old(cpu.Flat()).sps[mode := sp2])
              && LayoutOf(cpu.kt) == LayoutOf(old(cpu.kt)) && cpu.stklim == old(cpu.stklim)
              && cpu.tracePending == old(cpu.tracePending) && !cpu.inTrapPush
    ensures var mode := Mode(old(cpu.psw));
            HasRoom(old(cpu.kt), cpu.memTop, mode, old(cpu.r)[SP]) ==>
              o.Done? && cpu.servicingStackTrap == old(cpu.servicingStackTrap)
  {
    cpu.inTrapPush := true;
    ghost var kt0 := cpu.kt;
    ghost var mode := Mode(cpu.psw);
    ghost var sp2 := Plus(Plus(cpu.r[SP], -2), -2);
    ghost var p1 := StackPlace(cpu.kt, cpu.memTop, mode, Plus(cpu.r[SP], -2), true);
    o := PushWord(cpu, oldPsw);
    if o.Abort? {
      return;
    }
    if p1.Ram? {
      LayoutDecides(kt0, cpu.kt, cpu.memTop, sp2, true, mode, true);
    }
    o := PushWord(cpu, oldPc);
    if o.Done? {
      cpu.inTrapPush := false;
    }
  }

  /** The status word a trap enters with, where its vector is in installed memory. */
  function EntryOf(m: Mapping, memTop: nat, ram: seq<u16>, psw: u16, vector: u16): u16
    requires WellFormed(m) && IsRam(ram)
  {
    var v := StackPlace(m, memTop, 0, Plus(vector, 2), false);
    if v.Ram? then EntryPsw(ram[v.pa / 2], psw) else psw
  }

  /** A trap can complete: its vector and the two words it pushes are in installed memory, and the pointer it leaves
      is not in the red zone, unless a red-zone trap is what is being taken. */
  predicate Completes(m: Mapping, memTop: nat, ram: seq<u16>, flat: FlatFile, psw: u16, stklim: u16, servicing: bool,
                      vector: u16)
    requires WellFormed(m) && IsRam(ram) && IsFlat(flat)
  {
    var entered := EntryOf(m, memTop, ram, psw, vector);
    var sp := flat.sps[Mode(entered)];
    && StackPlace(m, memTop, 0, vector, false).Ram? && StackPlace(m, memTop, 0, Plus(vector, 2), false).Ram?
    && HasRoom(m, memTop, Mode(entered), sp)
    && (servicing || ZoneOf(stklim, entered, false, Plus(Plus(sp, -2), -2)) != Red)
  }

  ghost predicate CanTrap(cpu: Cpu, vector: u16)
    requires cpu.Valid()
    reads cpu, cpu.mem
  {
    Completes(cpu.kt, cpu.memTop, cpu.mem[..], cpu.Flat(), cpu.psw, cpu.stklim, cpu.servicingStackTrap, vector)
  }

  /** The mode a trap enters. */
  ghost function TrapMode(cpu: Cpu, vector: u16): (mode: nat)
    requires cpu.Valid()
    reads cpu, cpu.mem
    ensures mode < 4
  {
    Mode(EntryOf(cpu.kt, cpu.memTop, cpu.mem[..], cpu.psw, vector))
  }

  /** The status word a trap enters with: the vector's, with the mode trapped from as the previous mode. */
  function EntryPsw(vectorPsw: u16, psw: u16): (entered: u16)
    ensures FieldsOf(entered) == FieldsOf(vectorPsw).(previous := Mode(psw), unheld := 0)
  {
    MaskPsw(WithPreviousMode(vectorPsw, Mode(psw)))
  }

  /** On entry everything in the status word is the vector's, but that the mode trapped from is the previous one. */
  predicate Enters(entered: u16, vectorPsw: u16, psw: u16) {
    && Mode(entered) == Mode(vectorPsw) && RegSet(entered) == RegSet(vectorPsw)
    && Priority(entered) == Priority(vectorPsw) && Tracing(entered) == Tracing(vectorPsw)
    && Codes(entered) == Codes(vectorPsw) && PreviousMode(entered) == Mode(psw)
  }

  lemma EntryFields(vectorPsw: u16, psw: u16)
    ensures Enters(EntryPsw(vectorPsw, psw), vectorPsw, psw)
    ensures PreviousMode(EntryPsw(vectorPsw, psw)) == Mode(psw) && Masked(EntryPsw(vectorPsw, psw))
  {
    var e, w := FieldsOf(EntryPsw(vectorPsw, psw)), FieldsOf(vectorPsw);
    assert e.mode == w.mode && e.regSet == w.regSet && e.priority == w.priority;
  }

  /** The middle of a trap: the new status word is loaded, and the old one and the PC are pushed on the stack of its
      mode. */
  method SwitchAndPush(cpu: Cpu, vectorPsw: u16, ghost kt0: Mapping) returns (o: Outcome<()>, entered: u16)
    requires cpu.Valid() && WellFormed(kt0) && LayoutOf(kt0) == LayoutOf(cpu.kt)
    modifies cpu`r, cpu`psw, cpu`regfile, cpu`stackfile, cpu`kt, cpu`stklim, cpu`cpuerr, cpu`pirq, cpu`ccFrozen,
             cpu`yellowPending, cpu`servicingStackTrap, cpu`inTrapPush, cpu.mem
    ensures cpu.Valid() && entered == EntryPsw(vectorPsw, old(cpu.psw))
    ensures var mode, sp := Mode(entered), old(cpu.Flat()).sps[Mode(entered)];
            var p1 := StackPlace(kt0, cpu.memTop, mode, Plus(sp, -2), true);
            var p2 := StackPlace(kt0, cpu.memTop, mode, Plus(Plus(sp, -2), -2), true);
            o.Done? && p1.Ram? && p2.Ram? ==>
              && cpu.mem[..] == Stored(Stored(old(cpu.mem[..]), p1.pa, false, old(cpu.psw)), p2.pa, false,
                                       old(cpu.r)[PC])
              && cpu.psw == entered && cpu.r[SP] == Plus(Plus(sp, -2), -2)
              && cpu.Flat() == old(cpu.Flat()).(sps := old(cpu.Flat()).sps[mode := cpu.r[SP]])
              && LayoutOf(cpu.kt) == LayoutOf(kt0) && cpu.stklim == old(cpu.stklim) && !cpu.inTrapPush
    ensures HasRoom(kt0, cpu.memTop, Mode(entered), old(cpu.Flat()).sps[Mode(entered)]) ==>
              o.Done? && cpu.servicingStackTrap == old(cpu.servicingStackTrap)
  {
    var oldPsw, oldPc := cpu.psw, cpu.r[PC];
    ViewOfFlat(cpu.r, cpu.regfile, cpu.stackfile, cpu.psw);
    hide LayoutOf, LocateWord, Stored, Locate;
    cpu.PutPsw(WithPreviousMode(vectorPsw, Mode(oldPsw)));
    entered := cpu.psw;
    assert entered == EntryPsw(vectorPsw, oldPsw);
    hide EntryPsw, MaskPsw, WithPreviousMode, Mode, PreviousMode, Masked, Plus, RegSet, Priority, FieldsOf;
    RoomAlike(kt0, cpu.kt, cpu.memTop, Mode(entered), cpu.r[SP]);
    o := PushState(cpu, oldPsw, oldPc);
  }

  /** do_trap. The old status word and PC go on the stack of the mode entered, and of the flat file only that
      stack's pointer and the PC change. */
  method DoTrap(cpu: Cpu, vector: u16) returns (o: Outcome<()>, entered: u16)
    requires cpu.Valid()
    modifies cpu`r, cpu`psw, cpu`regfile, cpu`stackfile, cpu`kt, cpu`stklim, cpu`cpuerr, cpu`pirq, cpu`ccFrozen,
             cpu`yellowPending, cpu`servicingStackTrap, cpu`inTrapPush, cpu.mem
    ensures cpu.Valid() && (o.Done? ==> PreviousMode(entered) == Mode(old(cpu.psw)) && Masked(entered))
    ensures var mode := Mode(entered);
            var sp1 := Plus(old(cpu.Flat()).sps[mode], -2);
            var sp2 := Plus(sp1, -2);
            var p1 := StackPlace(old(cpu.kt), cpu.memTop, mode, sp1, true);
            var p2 := StackPlace(old(cpu.kt), cpu.memTop, mode, sp2, true);
            o.Done? && p1.Ram? && p2.Ram? ==>
              && cpu.mem[..] == Stored(Stored(old(cpu.mem[..]), p1.pa, false, old(cpu.psw)), p2.pa, false,
                                       old(cpu.r)[PC])
              && cpu.psw == entered
              && cpu.Flat() == old(cpu.Flat()).(sps := old(cpu.Flat()).sps[mode := sp2], pc := cpu.r[PC])
              && LayoutOf(cpu.kt) == LayoutOf(old(cpu.kt))
              && (var v := StackPlace(old(cpu.kt), cpu.memTop, 0, vector, false);
                  v.Ram? ==> cpu.r[PC] == old(cpu.mem[..])[v.pa / 2])
    ensures var v := StackPlace(old(cpu.kt), cpu.memTop, 0, Plus(vector, 2), false);
            o.Done? && v.Ram? ==>
              var word := old(cpu.mem[..])[v.pa / 2];
              entered == EntryPsw(word, old(cpu.psw)) && Enters(entered, word, old(cpu.psw))
    ensures old(CanTrap(cpu, vector)) ==> o.Done?
  {
    ghost var kt0, psw0 := cpu.kt, cpu.psw;
    entered := 0;
    var v := ReadVectors(cpu, vector);
    hide LayoutOf, LocateWord, Stored, Locate;
    if v.Abort? {
      return Abort(v.vec), entered;
    }
    EntryFields(v.value.psw, psw0);
    hide EntryPsw, ZoneOf, InstructionComplete, Mode, PreviousMode, Masked, Plus, RegSet, Priority, FieldsOf, Enters;
    o, entered := SwitchAndPush(cpu, v.value.psw, kt0);
    if o.Abort? {
      return;
    }
    o := EnterHandler(cpu, v.value.pc);
  }

  datatype Vector = Vector(pc: u16, psw: u16)

  /** The two words of a vector, from the kernel's data space. */
  method ReadVectors(cpu: Cpu, vector: u16) returns (o: Outcome<Vector>)
    requires cpu.Valid()
    modifies cpu`kt
    ensures cpu.Valid() && (o.Done? ==> LayoutOf(cpu.kt) == LayoutOf(old(cpu.kt)))
    ensures var p := StackPlace(old(cpu.kt), cpu.memTop, 0, vector, false);
            var q := StackPlace(old(cpu.kt), cpu.memTop, 0, Plus(vector, 2), false);
            && (o.Done? && p.Ram? ==> o.value.pc == cpu.mem[p.pa / 2])
            && (o.Done? && q.Ram? ==> o.value.psw == cpu.mem[q.pa / 2])
            && (p.Ram? && q.Ram? ==> o.Done?)
  {
    ghost var kt0 := cpu.kt;
    var pc := ReadVector(cpu, vector);
    if pc.Abort? {
      return Abort(pc.vec);
    }
    LayoutDecides(kt0, cpu.kt, cpu.memTop, Plus(vector, 2), false, 0, true);
    var psw := ReadVector(cpu, Plus(vector, 2));
    if psw.Abort? {
      return Abort(psw.vec);
    }
    return Done(Vector(pc.value, psw.value));
  }

  lemma RoomAlike(m: Mapping, m': Mapping, memTop: nat, mode: nat, sp: u16)
    requires WellFormed(m) && WellFormed(m') && mode < 4 && LayoutOf(m) == LayoutOf(m')
    ensures HasRoom(m, memTop, mode, sp) == HasRoom(m', memTop, mode, sp)
    ensures StackPlace(m, memTop, mode, Plus(sp, -2), true) == StackPlace(m', memTop, mode, Plus(sp, -2), true)
    ensures var low := Plus(Plus(sp, -2), -2);
            StackPlace(m, memTop, mode, low, true) == StackPlace(m', memTop, mode, low, true)
  {
    LayoutDecides(m, m', memTop, Plus(sp, -2), true, mode, true);
    LayoutDecides(m, m', memTop, Plus(Plus(sp, -2), -2), true, mode, true);
    hide LayoutOf, Plus;
  }

  /** The end of a trap: the new PC, the instruction-complete bit, and the limit check it was exempt from. */
  method EnterHandler(cpu: Cpu, newPc: u16) returns (o: Outcome<()>)
    requires cpu.Valid()
    modifies cpu`r, cpu`kt, cpu`stackfile, cpu`cpuerr, cpu`yellowPending, cpu`servicingStackTrap, cpu`inTrapPush
    ensures cpu.Valid()
    ensures o.Done? ==>
              && cpu.r == old(cpu.r)[PC := newPc] && cpu.Flat() == old(cpu.Flat()).(pc := newPc)
              && LayoutOf(cpu.kt) == LayoutOf(old(cpu.kt))
              && cpu.kt.mmr0 == InstructionComplete(old(cpu.kt).mmr0)
    ensures var zone := ZoneOf(cpu.stklim, cpu.psw, old(cpu.inTrapPush), old(cpu.r)[SP]);
            (old(cpu.servicingStackTrap) || zone != Red) ==> o.Done?
  {
    cpu.SetReg(PC, newPc);
    CompleteKeepsEnable(cpu.kt.mmr0);
    ghost var kt0 := cpu.kt;
    cpu.kt := cpu.kt.(mmr0 := InstructionComplete(cpu.kt.mmr0));
    assert LayoutOf(cpu.kt).pages == LayoutOf(kt0).pages;
    o := Done(());
    if !cpu.servicingStackTrap {
      o := CheckStackLimit(cpu, cpu.r[SP]);
    }
  }

  /** op_rti: PC and status word come off the current stack; RTI, not RTT, takes a restored T bit at once. */
  method ReturnFromTrap(cpu: Cpu, rtt: bool) returns (o: Outcome<()>)
    requires cpu.Valid()
    modifies cpu`r, cpu`psw, cpu`regfile, cpu`stackfile, cpu`kt, cpu`tracePending
    ensures cpu.Valid()
    ensures var mode := Mode(old(cpu.psw));
            var sp := old(cpu.r)[SP];
            var p1 := StackPlace(old(cpu.kt), cpu.memTop, mode, sp, false);
            var p2 := StackPlace(old(cpu.kt), cpu.memTop, mode, Plus(sp, 2), false);
            p1.Ram? && p2.Ram? ==>
              && o.Done? && cpu.psw == MaskPsw(cpu.mem[p2.pa / 2])
              && cpu.Flat() == old(cpu.Flat()).(sps := old(cpu.Flat()).sps[mode := Plus(Plus(sp, 2), 2)],
                                                pc := cpu.mem[p1.pa / 2])
              && cpu.tracePending == (old(cpu.tracePending) || (!rtt && Tracing(cpu.psw)))
  {
    ghost var kt0 := cpu.kt;
    var pc := PopWord(cpu);
    if pc.Abort? {
      return Abort(pc.vec);
    }
    LayoutDecides(kt0, cpu.kt, cpu.memTop, cpu.r[SP], false, Mode(cpu.psw), true);
    cpu.SetReg(PC, pc.value);
    var psw := PopWord(cpu);
    if psw.Abort? {
      return Abort(psw.vec);
    }
    cpu.PutPsw(psw.value);
    if !rtt && Tracing(cpu.psw) {
      cpu.tracePending := true;
    }
    return Done(());
  }

  /** Two stack words in different cells keep their values. */
  lemma PushedWords(ram: seq<u16>, p1: nat, v1: u16, p2: nat, v2: u16)
    requires IsRam(ram) && p1 < PA_LIMIT && p2 < PA_LIMIT && p1 % 2 == 0 && p2 % 2 == 0 && p1 != p2
    ensures var ram' := Stored(Stored(ram, p1, false, v1), p2, false, v2);
            ram'[p1 / 2] == v1 && ram'[p2 / 2] == v2
  {
  }

  lemma PlusPlus(sp: u16)
    ensures Plus(Plus(Plus(sp, -2), -2), 2) == Plus(sp, -2)
    ensures Plus(Plus(Plus(Plus(sp, -2), -2), 2), 2) == sp
  {
    PlusUndone(Plus(sp, -2), -2);
    PlusUndone(sp, -2);
    hide Plus;
  }

  /** A trap followed by a return restores the PC, the status word and every register of every bank, whatever
      modes and register sets were switched on the way, and leaves nothing in memory but the two words pushed -
      whenever its vector and those words are in installed memory and the pointer it leaves is not in the red zone. */
  method TrapThenReturn(cpu: Cpu, vector: u16, rtt: bool)
    returns (trap: Outcome<()>, entered: u16, back: Outcome<()>)
    requires cpu.Valid()
    modifies cpu, cpu.mem
    ensures cpu.Valid()
    ensures old(CanTrap(cpu, vector)) ==>
              && trap.Done? && back.Done? && cpu.psw == old(cpu.psw) && cpu.r == old(cpu.r)
              && cpu.Flat() == old(cpu.Flat())
              && HasRoom(old(cpu.kt), cpu.memTop, Mode(entered), old(cpu.Flat()).sps[Mode(entered)])
    ensures var mode := Mode(entered);
            var sp1 := Plus(old(cpu.Flat()).sps[mode], -2);
            var p1 := StackPlace(old(cpu.kt), cpu.memTop, mode, sp1, true);
            var p2 := StackPlace(old(cpu.kt), cpu.memTop, mode, Plus(sp1, -2), true);
            trap.Done? && p1.Ram? && p2.Ram? ==>
              && back.Done? && cpu.psw == old(cpu.psw) && cpu.r == old(cpu.r)
              && cpu.Flat() == old(cpu.Flat())
              && cpu.mem[..] == Stored(Stored(old(cpu.mem[..]), p1.pa, false, old(cpu.psw)), p2.pa, false,
                                       old(cpu.r)[PC])
    ensures var v := StackPlace(old(cpu.kt), cpu.memTop, 0, Plus(vector, 2), false);
            trap.Done? && v.Ram? ==> entered == EntryPsw(old(cpu.mem[..])[v.pa / 2], old(cpu.psw))
  {
    ghost var kt0, flat0, psw0, r0, ram0 := cpu.kt, cpu.Flat(), cpu.psw, cpu.r, cpu.mem[..];
    ViewOfFlat(cpu.r, cpu.regfile, cpu.stackfile, cpu.psw);
    trap, entered := DoTrap(cpu, vector);
    back := trap;
    if trap.Abort? {
      return;
    }
    ghost var mode := Mode(entered);
    ghost var sp := flat0.sps[mode];
    ghost var sp1 := Plus(sp, -2);
    ghost var sp2 := Plus(sp1, -2);
    ghost var p1 := StackPlace(kt0, cpu.memTop, mode, sp1, true);
    ghost var p2 := StackPlace(kt0, cpu.memTop, mode, sp2, true);
    ViewOfFlat(cpu.r, cpu.regfile, cpu.stackfile, cpu.psw);
    if p1.Ram? && p2.Ram? {
      PlusPlus(sp);
      NeighboursApart(kt0, cpu.memTop, sp1, true, mode, true);
      Readable(kt0, cpu.kt, cpu.memTop, mode, sp1);
      Readable(kt0, cpu.kt, cpu.memTop, mode, sp2);
      PushedWords(ram0, p1.pa, psw0, p2.pa, r0[PC]);
      assert cpu.r[SP] == sp2;
    }
    back := ReturnFromTrap(cpu, rtt);
    ViewOfFlat(cpu.r, cpu.regfile, cpu.stackfile, cpu.psw);
  }

  /** A word that could be pushed can be popped, from the same even cell. */
  lemma Readable(m: Mapping, m': Mapping, memTop: nat, mode: nat, sp: u16)
    requires WellFormed(m) && WellFormed(m') && mode < 4 && LayoutOf(m) == LayoutOf(m')
    requires StackPlace(m, memTop, mode, sp, true).Ram?
    ensures StackPlace(m', memTop, mode, sp, false) == StackPlace(m, memTop, mode, sp, true)
    ensures StackPlace(m, memTop, mode, sp, true).pa % 2 == 0
  {
    LayoutDecides(m, m', memTop, sp, false, mode, true);
    WritableIsReadable(m, sp, mode, true);
    WordsAreAligned(m, memTop, sp, true, mode, true);
    hide LayoutOf, Translate;
  }

  // ---- moves to and from the previous mode's space --------------------------------------------------------

  /** N and Z from the value, V clear, C kept - unless the status word has been stored explicitly. */
  function MovePsw(psw: u16, frozen: bool, value: u16): (psw': u16)
    ensures FieldsOf(psw') == FieldsOf(psw).(codes := Codes(psw'))
    ensures Mode(psw') == Mode(psw) && RegSet(psw') == RegSet(psw) && PreviousMode(psw') == PreviousMode(psw)
    ensures Masked(psw) ==> Masked(psw')
    ensures frozen ==> psw' == psw
    ensures !frozen ==> HasCodes(psw', value >= 0x8000, value == 0, false, CarryCode(psw))
  {
    if !frozen then
      CodesAre(WithCodes(psw, CodesOf(value >= 0x8000, value == 0, false, CarryCode(psw))),
               value >= 0x8000, value == 0, false, CarryCode(psw));
      WithCodes(psw, CodesOf(value >= 0x8000, value == 0, false, CarryCode(psw)))
    else psw
  }

  method SetMoveCodes(cpu: Cpu, value: u16)
    requires cpu.Valid()
    modifies cpu`psw
    ensures cpu.Valid() && cpu.Flat() == old(cpu.Flat()) && cpu.psw == MovePsw(old(cpu.psw), cpu.ccFrozen, value)
  {
    if !cpu.ccFrozen {
      cpu.psw := WithCodes(cpu.psw, CodesOf(value >= 0x8000, value == 0, false, CarryCode(cpu.psw)));
    }
  }

  /** The word an operand names in the previous mode's space; R6 is that mode's stack pointer. */
  ghost predicate IsPreviousWord(s: Space, psw: u16, flat: FlatFile, r: seq<u16>, dspace: bool, op: Operand, v: u16)
    requires IsSpace(s) && IsFlat(flat) && |r| == 8 && (op.Reg? ==> op.reg < 8)
  {
    if op.Reg? then v == if op.reg == SP then flat.sps[PreviousMode(psw)] else r[op.reg]
    else
      var p := LocateWord(s.m, s.memTop, op.addr, false, PreviousMode(psw), dspace);
      !p.Fault? && (p.Ram? ==> v == s.ram[p.pa / 2])
  }

  /** The source operand of MFPI and MFPD. */
  method PreviousOperand(cpu: Cpu, spec: Spec, dspace: bool) returns (o: Outcome<u16>, ghost a: Answers)
    requires cpu.Valid()
    modifies cpu`r, cpu`kt, cpu`mmr1, cpu`stackfile, cpu`cpuerr, cpu`yellowPending, cpu`servicingStackTrap,
             cpu`inTrapPush
    ensures cpu.Valid()
    ensures o.Done? ==>
              var s := old(SpaceOf(cpu));
              && cpu.r == Stepped(old(cpu.r), spec, false) && Alike(s, SpaceOf(cpu))
              && BanksOf(cpu) == old(BanksOf(cpu))
              && IsPreviousWord(s, cpu.psw, old(cpu.Flat()), old(cpu.r), dspace,
                                OperandOf(s, spec, false, old(cpu.r), a), o.value)
    ensures AddressMode(spec) == 0 ==>
              && cpu.Core() == old(cpu.Core()) && cpu.kt == old(cpu.kt)
              && o == Done(if Register(spec) == SP then old(cpu.Flat()).sps[PreviousMode(cpu.psw)]
                           else old(cpu.r)[Register(spec)])
  {
    var pm, cm := PreviousMode(cpu.psw), Mode(cpu.psw);
    ghost var kt0 := cpu.kt;
    var src;
    src, a := DecodeOperand(cpu, spec, false);
    if src.Abort? {
      return Abort(src.vec), a;
    }
    if !src.value.Reg? {
      LayoutDecides(kt0, cpu.kt, cpu.memTop, src.value.addr, false, pm, dspace);
    }
    hide Stepped, LayoutOf, OperandOf, Locate, LocateWord, ResolutionFaults, PointerFaults, PreviousMode, Mode;
    match src.value
    case Reg(reg) => o := Done(if reg == SP && cm != pm then cpu.stackfile[pm] else cpu.r[reg]);
    case Imm(_, addr) => o := cpu.ReadWordGen(addr, pm, dspace);
    case Mem(addr) => o := cpu.ReadWordGen(addr, pm, dspace);
  }

  /** MFPI and MFPD. The test the code makes for R6 - is the previous mode the current one? - is invisible: either
      way the stack pointer of the previous mode is pushed on the current stack. The ghost results are the word
      moved and what the I/O page answered on the way. */
  method MoveFromPrevious(cpu: Cpu, spec: Spec, dspace: bool)
    returns (o: Outcome<()>, ghost moved: u16, ghost a: Answers)
    requires cpu.Valid()
    modifies cpu, cpu.mem
    ensures cpu.Valid()
    ensures var s, r := old(SpaceOf(cpu)), Stepped(old(cpu.r), spec, false);
            var p := StackPlace(old(cpu.kt), cpu.memTop, Mode(old(cpu.psw)), Plus(r[SP], -2), true);
            o.Done? && p.Ram? ==>
              && IsPreviousWord(s, old(cpu.psw), old(cpu.Flat()), old(cpu.r), dspace,
                                OperandOf(s, spec, false, old(cpu.r), a), moved)
              && cpu.r == r[SP := Plus(r[SP], -2)] && cpu.mem[..] == Stored(old(cpu.mem[..]), p.pa, false, moved)
              && cpu.psw == MovePsw(old(cpu.psw), old(cpu.ccFrozen), moved)
              && cpu.regfile == old(cpu.regfile) && cpu.stackfile == old(cpu.stackfile)
              && (AddressMode(spec) == 0 ==>
                  cpu.Flat() == Put(old(cpu.Flat()), old(cpu.psw), SP, Plus(old(cpu.r)[SP], -2)))
  {
    moved := 0;
    ghost var kt0 := cpu.kt;
    if AddressMode(spec) == 0 {
      NoStep(cpu.r, spec, false);
    }
    ViewOfFlat(cpu.r, cpu.regfile, cpu.stackfile, cpu.psw);
    hide Stepped, LayoutOf, OperandOf, Locate, LocateWord, IsPreviousWord, WithCodes, Put, View, FlatOf, ZoneOf,
         FieldsOf, HasCodes, MovePsw, Masked, Mode, RegSet, PreviousMode;
    var value;
    value, a := PreviousOperand(cpu, spec, dspace);
    if value.Abort? {
      return Abort(value.vec), moved, a;
    }
    moved := value.value;
    LayoutDecides(kt0, cpu.kt, cpu.memTop, Plus(cpu.r[SP], -2), true, Mode(cpu.psw), true);
    SetMoveCodes(cpu, value.value);
    o := PushWord(cpu, value.value);
  }

  /** MTPI and MTPD: a word popped from the current stack becomes, for R6, the previous mode's stack pointer, and
      otherwise goes where the operand says in the previous mode's space. */
  method MoveToPrevious(cpu: Cpu, spec: Spec, dspace: bool) returns (o: Outcome<()>, ghost a: Answers)
    requires cpu.Valid()
    modifies cpu, cpu.mem
    ensures cpu.Valid()
    ensures var s, psw, r := old(SpaceOf(cpu)), old(cpu.psw), old(cpu.r)[SP := Plus(old(cpu.r)[SP], 2)];
            var p := StackPlace(old(cpu.kt), cpu.memTop, Mode(psw), old(cpu.r)[SP], false);
            p.Ram? ==>
              var value := old(cpu.mem[..])[p.pa / 2];
              var popped := Put(old(cpu.Flat()), psw, SP, Plus(old(cpu.r)[SP], 2));
              && (AddressMode(spec) == 0 ==>
                  && o.Done? && cpu.mem[..] == old(cpu.mem[..]) && cpu.psw == MovePsw(psw, old(cpu.ccFrozen), value)
                  && cpu.Flat() == (if Register(spec) == SP
                                    then popped.(sps := popped.sps[PreviousMode(psw) := value])
                                    else Put(popped, psw, Register(spec), value)))
              && (AddressMode(spec) != 0 && o.Done? ==>
                  PutsPrevious(s, psw, old(cpu.ccFrozen), dspace, OperandOf(s, spec, false, r, a), value,
                               Stepped(r, spec, false), cpu.r, cpu.psw, cpu.mem[..])
                  && (PreviousPlace(s, psw, dspace, OperandOf(s, spec, false, r, a)).Ram? ==>
                      cpu.regfile == old(cpu.regfile) && cpu.stackfile == old(cpu.stackfile)))
  {
    a := Answers(0, 0);
    hide LayoutOf, Locate, LocateWord, Put, FlatOf, WithCodes, MovePsw, OperandOf, Stepped, Stored, AddressMode,
         Register, FieldsOf, HasCodes, Masked;
    ghost var kt0, s, psw := cpu.kt, SpaceOf(cpu), cpu.psw;
    var value := PopWord(cpu);
    if value.Abort? {
      return Abort(value.vec), a;
    }
    SetMoveCodes(cpu, value.value);
    var dst;
    dst, a := ResolveFrom(cpu, spec, s);
    if dst.Abort? {
      return Abort(dst.vec), a;
    }
    if !dst.value.Reg? {
      LayoutDecides(kt0, cpu.kt, cpu.memTop, dst.value.addr, true, PreviousMode(psw), dspace);
    }
    o := StorePrevious(cpu, dst.value, dspace, value.value);
  }

  /** Resolving a destination, as seen from the space s before the pop. */
  method ResolveFrom(cpu: Cpu, spec: Spec, ghost s: Space) returns (o: Outcome<Operand>, ghost a: Answers)
    requires cpu.Valid() && Alike(s, SpaceOf(cpu))
    modifies cpu`r, cpu`kt, cpu`mmr1, cpu`stackfile, cpu`cpuerr, cpu`yellowPending, cpu`servicingStackTrap,
             cpu`inTrapPush
    ensures cpu.Valid() && Alike(s, SpaceOf(cpu))
    ensures o.Done? ==>
              && o.value == OperandOf(s, spec, false, old(cpu.r), a) && (o.value.Reg? <==> AddressMode(spec) == 0)
              && cpu.r == Stepped(old(cpu.r), spec, false) && BanksOf(cpu) == old(BanksOf(cpu))
    ensures AddressMode(spec) == 0 ==> o == Done(Reg(Register(spec))) && cpu.Core() == old(cpu.Core())
  {
    ghost var before, r, limit := SpaceOf(cpu), cpu.r, LimitOf(cpu);
    o, a := DecodeOperand(cpu, spec, false);
    AlikeResolve(s, before, spec, false, r, a, limit);
    hide LayoutOf, ResolutionFaults, ResolutionClear, PointerFaults, Stepped;
  }

  /** The destination of MTPI and MTPD, once resolved. */
  method StorePrevious(cpu: Cpu, op: Operand, dspace: bool, value: u16) returns (o: Outcome<()>)
    requires cpu.Valid() && (op.Reg? ==> op.reg < 8)
    modifies cpu`r, cpu`psw, cpu`regfile, cpu`stackfile, cpu`kt, cpu`stklim, cpu`cpuerr, cpu`pirq, cpu`ccFrozen,
             cpu.mem
    ensures cpu.Valid()
    ensures op.Reg? ==>
              var flat := old(cpu.Flat());
              && o.Done? && cpu.mem[..] == old(cpu.mem[..]) && cpu.psw == old(cpu.psw)
              && cpu.Flat() == (if op.reg == SP then flat.(sps := flat.sps[PreviousMode(cpu.psw) := value])
                                else Put(flat, cpu.psw, op.reg, value))
    ensures !op.Reg? ==>
              var p := LocateWord(old(cpu.kt), cpu.memTop, op.addr, true, PreviousMode(old(cpu.psw)), dspace);
              && (p.Ram? ==> && o.Done? && cpu.Core() == old(cpu.Core())
                             && cpu.mem[..] == Stored(old(cpu.mem[..]), p.pa, false, value))
              && (p.Fault? ==> o.Abort?)
  {
    var pm, cm := PreviousMode(cpu.psw), Mode(cpu.psw);
    match op {
      case Reg(reg) =>
        if reg == SP && cm != pm {
          cpu.stackfile := cpu.stackfile[pm := value];
        } else {
          cpu.SetReg(reg, value);
        }
        o := Done(());
      case Imm(_, addr) => o := cpu.WriteWordMode(addr, pm, dspace, value);
      case Mem(addr) => o := cpu.WriteWordMode(addr, pm, dspace, value);
    }
  }

  /** Where an operand lies in the previous mode's space, for a store. */
  ghost function PreviousPlace(s: Space, psw: u16, dspace: bool, op: Operand): (p: Place)
    requires IsSpace(s) && !op.Reg?
    ensures p.Ram? ==> p.pa < IOPAGE_TOP
  {
    LocateWord(s.m, s.memTop, op.addr, true, PreviousMode(psw), dspace)
  }

  /** What a store in the previous mode's space leaves. */
  ghost predicate PutsPrevious(s: Space, psw: u16, frozen: bool, dspace: bool, op: Operand, value: u16, r: seq<u16>,
                               r': seq<u16>, psw': u16, ram': seq<u16>)
    requires IsSpace(s)
  {
    !op.Reg? &&
    var p := PreviousPlace(s, psw, dspace, op);
    && !p.Fault?
    && (p.Ram? ==> r' == r && psw' == MovePsw(psw, frozen, value) && ram' == Stored(s.ram, p.pa, false, value))
  }

  /** A word moved to the previous mode's space is the word that is moved back from the same operand. */
  lemma MovedBack(s: Space, s': Space, psw: u16, psw': u16, frozen: bool, dspace: bool, op: Operand, value: u16,
                  r: seq<u16>, r': seq<u16>, flat: FlatFile, moved: u16)
    requires IsSpace(s) && IsSpace(s') && IsFlat(flat) && |r'| == 8 && !op.Reg?
    requires LayoutOf(s.m) == LayoutOf(s'.m) && s.memTop == s'.memTop
    requires PutsPrevious(s, psw, frozen, dspace, op, value, r, r', psw', s'.ram)
    requires PreviousPlace(s, psw, dspace, op).Ram? && IsPreviousWord(s', psw', flat, r', dspace, op, moved)
    ensures moved == value
  {
    var pm := PreviousMode(psw);
    LayoutDecides(s.m, s'.m, s.memTop, op.addr, false, pm, dspace);
    WritableIsReadable(s.m, op.addr, pm, dspace);
    WordsAreAligned(s.m, s.memTop, op.addr, true, pm, dspace);
    hide LayoutOf, Translate, MovePsw, PreviousMode;
  }
}
