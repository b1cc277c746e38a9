/** An instruction that faults, and the trap it takes: what the handler finds. */
module Faults {
  import opened Words
  import opened Kt11
  import opened Memory
  import opened Psw
  import opened Cpu
  import opened Recovery
  import opened Operands
  import opened Stages
  import opened Instruction
  import opened VirtualMemory
  import opened Traps

  /** Under a status word of another mode, what a trap does to the flat file shows only in the PC. */
  lemma OtherModeUntouched(f: FlatFile, psw: u16, mode: nat, sp: u16, pc: u16)
    requires IsFlat(f) && mode < 4 && mode != Mode(psw)
    ensures View(f.(sps := f.sps[mode := sp], pc := pc), psw) == View(f, psw)[PC := pc]
  {
    hide RegSet, Mode;
  }

  /** The banked stack pointers, those of the other modes, are where they were. */
  lemma OtherPointers(r: seq<u16>, r': seq<u16>, regfile: seq<seq<u16>>, stackfile: seq<u16>, psw: u16, psw': u16,
                      mode: nat)
    requires IsBanked(r, regfile, stackfile) && IsBanked(r', regfile, stackfile)
    requires Mode(psw) == Mode(psw') && mode < 4 && mode != Mode(psw)
    ensures FlatOf(r, regfile, stackfile, psw).sps[mode] == FlatOf(r', regfile, stackfile, psw').sps[mode]
  {
    hide RegSet, Mode;
  }

  /** Memory after a trap's pushes: the given status word in the upper one, the PC in the lower, the rest as it was. */
  ghost predicate Handed(m: Mapping, memTop: nat, mode: nat, sp: u16, ram: seq<u16>, psw: u16, ram': seq<u16>)
    requires WellFormed(m) && mode < 4 && IsRam(ram) && IsRam(ram') && HasRoom(m, memTop, mode, sp)
  {
    var p1 := StackPlace(m, memTop, mode, Plus(sp, -2), true).pa;
    var p2 := StackPlace(m, memTop, mode, Plus(Plus(sp, -2), -2), true).pa;
    ram'[p1 / 2] == psw && ram' == Stored(Stored(ram, p1, false, psw), p2, false, ram'[p2 / 2])
  }

  lemma HandedAlike(m: Mapping, m': Mapping, memTop: nat, mode: nat, sp: u16, ram: seq<u16>, psw: u16, ram': seq<u16>)
    requires WellFormed(m) && WellFormed(m') && mode < 4 && IsRam(ram) && IsRam(ram') && LayoutOf(m) == LayoutOf(m')
    ensures HasRoom(m, memTop, mode, sp) == HasRoom(m', memTop, mode, sp)
    ensures HasRoom(m, memTop, mode, sp) ==>
              Handed(m, memTop, mode, sp, ram, psw, ram') == Handed(m', memTop, mode, sp, ram, psw, ram')
  {
    LayoutDecides(m, m', memTop, Plus(sp, -2), true, mode, true);
    LayoutDecides(m, m', memTop, Plus(Plus(sp, -2), -2), true, mode, true);
    hide LayoutOf, Plus;
  }

  /** The trap of a fault, as a handler in another mode sees it. */
  method TakeFault(cpu: Cpu, vec: u16) returns (trap: Outcome<()>, entered: u16)
    requires cpu.Valid()
    modifies cpu`r, cpu`psw, cpu`regfile, cpu`stackfile, cpu`kt, cpu`stklim, cpu`cpuerr, cpu`pirq, cpu`ccFrozen,
             cpu`yellowPending, cpu`servicingStackTrap, cpu`inTrapPush, cpu.mem
    ensures cpu.Valid()
    ensures var mode, psw := Mode(entered), old(cpu.psw);
            var sp := old(cpu.Flat()).sps[mode];
            mode != Mode(psw) && trap.Done? && HasRoom(old(cpu.kt), cpu.memTop, mode, sp) ==>
              && cpu.psw == entered && PreviousMode(entered) == Mode(psw)
              && Handed(old(cpu.kt), cpu.memTop, mode, sp, old(cpu.mem[..]), psw, cpu.mem[..])
              && View(cpu.Flat(), psw)[..PC] == old(cpu.r)[..PC]
    ensures old(CanTrap(cpu, vec)) ==> trap.Done?
    ensures var v := StackPlace(old(cpu.kt), cpu.memTop, 0, Plus(vec, 2), false);
            trap.Done? && v.Ram? ==> entered == EntryPsw(old(cpu.mem[..])[v.pa / 2], old(cpu.psw))
  {
    ghost var flat, r, ram, kt, psw := cpu.Flat(), cpu.r, cpu.mem[..], cpu.kt, cpu.psw;
    ViewOfFlat(cpu.r, cpu.regfile, cpu.stackfile, cpu.psw);
    trap, entered := DoTrap(cpu, vec);
    cpu.servicingStackTrap := false;
    ghost var mode := Mode(entered);
    ghost var sp := flat.sps[mode];
    if mode != Mode(psw) && trap.Done? && HasRoom(kt, cpu.memTop, mode, sp) {
      OtherModeUntouched(flat, psw, mode, Plus(Plus(sp, -2), -2), cpu.r[PC]);
      PushesStand(kt, cpu.memTop, mode, sp, ram, psw, r[PC]);
    }
    hide RegSet, View, Stored, StackPlace, Plus, LayoutOf, Completes;
  }

  /** The two pushes land apart, so both words stand. */
  lemma PushesStand(m: Mapping, memTop: nat, mode: nat, sp: u16, ram: seq<u16>, psw: u16, pc: u16)
    requires WellFormed(m) && mode < 4 && IsRam(ram) && HasRoom(m, memTop, mode, sp)
    ensures var p1 := StackPlace(m, memTop, mode, Plus(sp, -2), true).pa;
            var p2 := StackPlace(m, memTop, mode, Plus(Plus(sp, -2), -2), true).pa;
            Handed(m, memTop, mode, sp, ram, psw, Stored(Stored(ram, p1, false, psw), p2, false, pc))
  {
    var sp1 := Plus(sp, -2);
    NeighboursApart(m, memTop, sp1, true, mode, true);
    Readable(m, m, memTop, mode, sp1);
    Readable(m, m, memTop, mode, Plus(sp1, -2));
    PushedWords(ram, StackPlace(m, memTop, mode, sp1, true).pa, psw,
                StackPlace(m, memTop, mode, Plus(sp1, -2), true).pa, pc);
    hide LocateWord, Plus, Stored;
  }

  /** The trap of a management abort, told from the state before the instruction. */
  method TrapFromAbort(cpu: Cpu, ghost kt0: Mapping, ghost r0: seq<u16>, ghost psw0: u16)
    returns (trap: Outcome<()>, entered: u16)
    requires cpu.Valid() && WellFormed(kt0) && LayoutOf(kt0) == LayoutOf(cpu.kt)
    requires IsBanked(r0, cpu.regfile, cpu.stackfile) && Mode(psw0) == Mode(cpu.psw) && RegSet(psw0) == RegSet(cpu.psw)
    modifies cpu`r, cpu`psw, cpu`regfile, cpu`stackfile, cpu`kt, cpu`stklim, cpu`cpuerr, cpu`pirq, cpu`ccFrozen,
             cpu`yellowPending, cpu`servicingStackTrap, cpu`inTrapPush, cpu.mem
    ensures cpu.Valid()
    ensures var mode, flat0 := Mode(entered), old(FlatOf(r0, cpu.regfile, cpu.stackfile, psw0));
            mode != Mode(psw0) && trap.Done? && HasRoom(kt0, cpu.memTop, mode, flat0.sps[mode]) ==>
              && cpu.psw == entered && PreviousMode(entered) == Mode(psw0)
              && Handed(kt0, cpu.memTop, mode, flat0.sps[mode], old(cpu.mem[..]), old(cpu.psw), cpu.mem[..])
              && Recovered(View(cpu.Flat(), psw0), cpu.mmr1, cpu.mmr2) == Recovered(old(cpu.r), cpu.mmr1, cpu.mmr2)
    ensures var flat0, ram := old(FlatOf(r0, cpu.regfile, cpu.stackfile, psw0)), old(cpu.mem[..]);
            var mode := Mode(EntryOf(kt0, cpu.memTop, ram, psw0, VEC_MME));
            mode != Mode(psw0)
            && Completes(kt0, cpu.memTop, ram, flat0, psw0, old(cpu.stklim), old(cpu.servicingStackTrap), VEC_MME) ==>
              trap.Done? && Mode(entered) == mode
    ensures var v := StackPlace(kt0, cpu.memTop, 0, Plus(VEC_MME, 2), false);
            trap.Done? && v.Ram? ==> entered == EntryPsw(old(cpu.mem[..])[v.pa / 2], psw0)
  {
    ghost var kt, r, psw, regfile, stackfile, ram := cpu.kt, cpu.r, cpu.psw, cpu.regfile, cpu.stackfile, cpu.mem[..];
    hide Recovered, View, LayoutOf, RegSet, Mode, PreviousMode, Handed, HasRoom, EntryPsw, StackPlace, Plus, FlatOf,
         Masked, Completes, FieldsOf;
    VectorAlike(kt0, kt, cpu.memTop);
    StillCompletes(kt0, kt, cpu.memTop, r0, r, regfile, stackfile, psw0, psw, ram, cpu.stklim, cpu.servicingStackTrap);
    trap, entered := TakeFault(cpu, VEC_MME);
    ghost var v := StackPlace(kt, cpu.memTop, 0, Plus(VEC_MME, 2), false);
    if v.Ram? {
      SameEntry(ram[v.pa / 2], psw0, psw);
    }
    if Mode(entered) != Mode(psw0) && trap.Done? {
      FaultSeen(kt0, kt, cpu.memTop, Mode(entered), r0, r, regfile, stackfile, psw0, psw, ram, cpu.mem[..],
                cpu.Flat(), cpu.mmr1, cpu.mmr2);
    }
  }

  /** The fault path of a step. When a management abort interrupts an instruction and its trap is taken into
      another mode, memory changes only in the two words pushed, the first of them the status word of the abort,
      and the trap disturbs nothing the handler needs: the interrupted registers, seen under the interrupted
      status word, rewind to what they were before the instruction exactly when the instruction's stage, which the
      state before it decides, loses no step. */
  method ExecuteOrTrap(cpu: Cpu, alu: Alu)
    returns (o: Outcome<()>, word: u16, trap: Outcome<()>, entered: u16, ghost a: Answered, ghost b: Answered)
    requires cpu.Valid()
    modifies cpu, cpu.mem
    ensures cpu.Valid()
    ensures var s, r0, psw := old(SpaceOf(cpu)), old(cpu.r), old(cpu.psw);
            var stage := StageOf(s, word, r0, a, b);
            var mode := Mode(entered);
            var sp := old(cpu.Flat()).sps[mode];
            && !Frozen(old(cpu.kt).mmr0) && o == Abort(VEC_MME) && mode != Mode(psw)
            && trap.Done? && HasRoom(old(cpu.kt), cpu.memTop, mode, sp) ==>
              && cpu.psw == entered && PreviousMode(entered) == Mode(psw)
              && Handed(old(cpu.kt), cpu.memTop, mode, sp, old(cpu.mem[..]), PswAt(s, stage, word, alu, r0, psw, a, b),
                        cpu.mem[..])
              && cpu.mmr2 == r0[PC]
              && (Recovered(View(cpu.Flat(), psw), cpu.mmr1, cpu.mmr2) == r0 <==> !LosesStep(stage))
    ensures o == Abort(VEC_MME) && old(CanTrap(cpu, VEC_MME)) && old(TrapMode(cpu, VEC_MME)) != Mode(old(cpu.psw)) ==>
              trap.Done? && Mode(entered) == old(TrapMode(cpu, VEC_MME))
    ensures var v := StackPlace(old(cpu.kt), cpu.memTop, 0, Plus(VEC_MME, 2), false);
            o == Abort(VEC_MME) && trap.Done? && v.Ram? ==>
              entered == EntryPsw(old(cpu.mem[..])[v.pa / 2], old(cpu.psw))
    ensures var p := StreamPlace(old(SpaceOf(cpu)), old(cpu.r)[PC]);
            p.Ram? ==> word == old(cpu.mem[..])[p.pa / 2]
  {
    ghost var kt0, r0, psw0 := cpu.kt, cpu.r, cpu.psw;
    hide LosesStep, StageOf, Completed, Recovered, View, StreamPlace, LayoutOf, Locate, LocateWord, Frozen,
         HasOneOperand, PointerFaults, RegSet, Mode, PreviousMode, Handed, HasRoom, EntryPsw, PswAt, StackPlace, Plus,
         FlatOf, Masked, Priority, Completes, FieldsOf, Codes, BodyClear, BodyRefused;
    o, word, a, b := Execute(cpu, alu);
    trap, entered := Done(()), cpu.psw;
    if o == Abort(VEC_MME) {
      trap, entered := TrapFromAbort(cpu, kt0, r0, psw0);
    } else if o.Abort? {
      trap, entered := TakeFault(cpu, o.vec);
    }
  }

  /** What a trap from an abort leaves, told from the state before the instruction. */
  lemma FaultSeen(kt0: Mapping, kt: Mapping, memTop: nat, mode: nat, r0: seq<u16>, r: seq<u16>, regfile: seq<seq<u16>>,
                  stackfile: seq<u16>, psw0: u16, psw: u16, ram: seq<u16>, ram': seq<u16>, after: FlatFile, mmr1: u16,
                  mmr2: u16)
    requires WellFormed(kt0) && WellFormed(kt) && LayoutOf(kt0) == LayoutOf(kt) && mode < 4
    requires IsBanked(r0, regfile, stackfile) && IsBanked(r, regfile, stackfile) && IsFlat(after)
    requires Mode(psw) == Mode(psw0) != mode && RegSet(psw) == RegSet(psw0) && IsRam(ram) && IsRam(ram')
    requires var sp := FlatOf(r, regfile, stackfile, psw).sps[mode];
             HasRoom(kt, memTop, mode, sp) ==>
               Handed(kt, memTop, mode, sp, ram, psw, ram') && View(after, psw)[..PC] == r[..PC]
    ensures var sp := FlatOf(r0, regfile, stackfile, psw0).sps[mode];
            HasRoom(kt0, memTop, mode, sp) ==>
              && HasRoom(kt, memTop, mode, FlatOf(r, regfile, stackfile, psw).sps[mode])
              && Handed(kt0, memTop, mode, sp, ram, psw, ram')
              && Recovered(View(after, psw0), mmr1, mmr2) == Recovered(r, mmr1, mmr2)
  {
    var sp := FlatOf(r0, regfile, stackfile, psw0).sps[mode];
    OtherPointers(r0, r, regfile, stackfile, psw0, psw, mode);
    HandedAlike(kt0, kt, memTop, mode, sp, ram, psw, ram');
    SameView(after, psw0, psw);
    hide *;
    if View(after, psw)[..PC] == r[..PC] {
      RecoverySame(View(after, psw), r, mmr1, mmr2);
    }
  }

  /** What lets a trap into another mode complete is as it was before the instruction. */
  lemma StillCompletes(kt0: Mapping, kt: Mapping, memTop: nat, r0: seq<u16>, r: seq<u16>, regfile: seq<seq<u16>>,
                       stackfile: seq<u16>, psw0: u16, psw: u16, ram: seq<u16>, stklim: u16, servicing: bool)
    requires WellFormed(kt0) && WellFormed(kt) && LayoutOf(kt0) == LayoutOf(kt) && IsRam(ram)
    requires IsBanked(r0, regfile, stackfile) && IsBanked(r, regfile, stackfile) && Mode(psw) == Mode(psw0)
    ensures var f0, f := FlatOf(r0, regfile, stackfile, psw0), FlatOf(r, regfile, stackfile, psw);
            Completes(kt0, memTop, ram, f0, psw0, stklim, servicing, VEC_MME)
            && Mode(EntryOf(kt0, memTop, ram, psw0, VEC_MME)) != Mode(psw0) ==>
              Completes(kt, memTop, ram, f, psw, stklim, servicing, VEC_MME)
  {
    VectorAlike(kt0, kt, memTop);
    var entered := EntryOf(kt0, memTop, ram, psw0, VEC_MME);
    var v := StackPlace(kt0, memTop, 0, Plus(VEC_MME, 2), false);
    if v.Ram? && Mode(entered) != Mode(psw0) {
      SameEntry(ram[v.pa / 2], psw0, psw);
      OtherPointers(r0, r, regfile, stackfile, psw0, psw, Mode(entered));
      RoomAlike(kt0, kt, memTop, Mode(entered), FlatOf(r0, regfile, stackfile, psw0).sps[Mode(entered)]);
    }
    hide LayoutOf, StackPlace, EntryPsw, Mode, HasRoom, FlatOf, Plus;
  }

  lemma VectorAlike(m: Mapping, m': Mapping, memTop: nat)
    requires WellFormed(m) && WellFormed(m') && LayoutOf(m) == LayoutOf(m')
    ensures StackPlace(m, memTop, 0, Plus(VEC_MME, 2), false) == StackPlace(m', memTop, 0, Plus(VEC_MME, 2), false)
    ensures StackPlace(m, memTop, 0, VEC_MME, false) == StackPlace(m', memTop, 0, VEC_MME, false)
  {
    LayoutDecides(m, m', memTop, VEC_MME, false, 0, true);
    LayoutDecides(m, m', memTop, Plus(VEC_MME, 2), false, 0, true);
  }

  lemma SameView(f: FlatFile, psw: u16, psw': u16)
    requires IsFlat(f) && Mode(psw) == Mode(psw') && RegSet(psw) == RegSet(psw')
    ensures View(f, psw) == View(f, psw')
  {
  }

  lemma SameEntry(vectorPsw: u16, psw: u16, psw': u16)
    requires Mode(psw) == Mode(psw')
    ensures EntryPsw(vectorPsw, psw) == EntryPsw(vectorPsw, psw')
  {
    hide Mode;
  }
}
