/** One instruction with operands: snapshot, fetch, resolve, read, write - and what an abort in the middle leaves
    for the handler to put back. */
module Instruction {
  import opened Words
  import opened Kt11
  import opened Memory
  import opened Psw
  import opened Cpu
  import opened Recovery
  import opened Operands
  import opened Stages

  method ReadOperand(cpu: Cpu, op: Operand, bytemode: bool) returns (o: Outcome<u16>)
    requires cpu.Valid() && (op.Reg? ==> op.reg < 8)
    modifies cpu`kt
    ensures cpu.Valid() && Alike(old(SpaceOf(cpu)), SpaceOf(cpu))
    ensures o.Done? ==> && cpu.kt.mmr0 == old(cpu.kt).mmr0
                        && o.value == ValueOf(old(SpaceOf(cpu)), op, bytemode, cpu.r, o.value)
    ensures o == Abort(VEC_MME) <==> ReadFaults(old(SpaceOf(cpu)), op, bytemode)
    ensures (op.Mem? ==> DataPlace(old(SpaceOf(cpu)), op.addr, bytemode, false).Ram?) ==> o.Done?
  {
    match op
    case Reg(reg) => return Done(if bytemode then cpu.r[reg] % 256 else cpu.r[reg]);
    case Imm(value, _) => return Done(if bytemode then value % 256 else value);
    case Mem(addr) =>
      if bytemode {
        o := cpu.ReadByteAt(addr);
      } else {
        o := cpu.ReadWordGen(addr, Mode(cpu.psw), true);
      }
  }

  method WriteOperand(cpu: Cpu, op: Operand, bytemode: bool, value: u16) returns (o: Outcome<()>)
    requires cpu.Valid() && (op.Reg? ==> op.reg < 8)
    modifies cpu`r, cpu`psw, cpu`regfile, cpu`stackfile, cpu`kt, cpu`stklim, cpu`cpuerr, cpu`pirq, cpu`ccFrozen,
             cpu.mem
    ensures cpu.Valid() && (o.Abort? ==> cpu.Core() == old(cpu.Core()) && cpu.mem[..] == old(cpu.mem[..]))
    ensures o == Abort(VEC_MME) ==> Alike(old(SpaceOf(cpu)), SpaceOf(cpu))
    ensures op.Reg? ==>
              && o.Done? && cpu.psw == old(cpu.psw) && cpu.ccFrozen == old(cpu.ccFrozen) && cpu.kt == old(cpu.kt)
              && cpu.r == old(cpu.r)[op.reg := if bytemode then WithHalf(old(cpu.r)[op.reg], false, value % 256)
                                               else value]
              && cpu.mem[..] == old(cpu.mem[..])
    ensures !op.Reg? ==>
              var p := DataPlace(old(SpaceOf(cpu)), op.addr, bytemode, true);
              && (p.Ram? ==> && o.Done? && cpu.Core() == old(cpu.Core())
                             && cpu.mem[..] == Stored(old(cpu.mem[..]), p.pa, bytemode, value))
              && (p.Fault? ==> o == Abort(p.vec)) && (o == Abort(VEC_MME) ==> p == Fault(VEC_MME))
  {
    match op {
      case Reg(reg) =>
        cpu.r := cpu.r[reg := if bytemode then WithHalf(cpu.r[reg], false, value % 256) else value];
        o := Done(());
      case Imm(_, addr) => o := WriteAt(cpu, addr, bytemode, value);
      case Mem(addr) => o := WriteAt(cpu, addr, bytemode, value);
    }
  }

  method WriteAt(cpu: Cpu, addr: u16, bytemode: bool, value: u16) returns (o: Outcome<()>)
    requires cpu.Valid()
    modifies cpu`r, cpu`psw, cpu`regfile, cpu`stackfile, cpu`kt, cpu`stklim, cpu`cpuerr, cpu`pirq, cpu`ccFrozen,
             cpu.mem
    ensures cpu.Valid() && (o.Abort? ==> cpu.Core() == old(cpu.Core()) && cpu.mem[..] == old(cpu.mem[..]))
    ensures o == Abort(VEC_MME) ==> Alike(old(SpaceOf(cpu)), SpaceOf(cpu))
    ensures var p := DataPlace(old(SpaceOf(cpu)), addr, bytemode, true);
            && (p.Ram? ==> && o.Done? && cpu.Core() == old(cpu.Core())
                           && cpu.mem[..] == Stored(old(cpu.mem[..]), p.pa, bytemode, value))
            && (p.Fault? ==> o == Abort(p.vec)) && (o == Abort(VEC_MME) ==> p == Fault(VEC_MME))
  {
    if bytemode {
      o := cpu.WriteByteAt(addr, value % 256);
    } else {
      o := cpu.WriteWordMode(addr, Mode(cpu.psw), true, value);
    }
  }

  /** Condition codes are set unless the instruction has stored a status word of its own. */
  method SetCodes(cpu: Cpu, codes: Nzvc)
    requires cpu.Valid()
    modifies cpu`psw
    ensures cpu.Valid() && cpu.psw == if cpu.ccFrozen then old(cpu.psw) else WithCodes(old(cpu.psw), codes)
  {
    if !cpu.ccFrozen {
      cpu.psw := WithCodes(cpu.psw, codes);
    }
  }

  /** The end of an instruction that stores: the codes before the store or after it, which shows only when the
      store aborts. */
  method Commit(cpu: Cpu, op: Operand, bytemode: bool, value: u16, codes: Nzvc, early: bool, ghost s: Space)
    returns (o: Outcome<()>)
    requires cpu.Valid() && !cpu.ccFrozen && (op.Reg? ==> op.reg < 8) && Alike(s, SpaceOf(cpu))
    modifies cpu`r, cpu`psw, cpu`regfile, cpu`stackfile, cpu`kt, cpu`stklim, cpu`cpuerr, cpu`pirq, cpu`ccFrozen,
             cpu.mem
    ensures cpu.Valid()
    ensures o.Abort? ==> && cpu.r == old(cpu.r) && cpu.mem[..] == old(cpu.mem[..])
                         && cpu.psw == if early then WithCodes(old(cpu.psw), codes) else old(cpu.psw)
    ensures o == Abort(VEC_MME) ==>
              Alike(s, SpaceOf(cpu)) && BanksOf(cpu) == old(BanksOf(cpu))
    ensures o.Done? ==> Committed(s, op, bytemode, value, codes, old(cpu.r), old(cpu.psw), cpu.r, cpu.psw, cpu.mem[..])
    ensures (StoreClear(s, op, bytemode) ==> o.Done?) && (o == Abort(VEC_MME) <==> StoreRefused(s, op, bytemode))
  {
    if !op.Reg? {
      AlikePlaces(s, SpaceOf(cpu), op.addr, bytemode, true);
    }
    if early {
      SetCodes(cpu, codes);
    }
    hide DataPlace;
    o := WriteOperand(cpu, op, bytemode, value);
    if o.Done? && !early {
      SetCodes(cpu, codes);
    }
  }

  /** While MMR0 holds no fault, the log accounts for the registers. */
  ghost predicate Logged(kt: Mapping, r: seq<u16>, mmr1: u16, r0: seq<u16>) {
    !Frozen(kt.mmr0) ==> Accounts(r, mmr1, r0)
  }

  /** Resolving an operand, with the log's account of the registers; s is the space the instruction began in. */
  method Resolve(cpu: Cpu, spec: Spec, bytemode: bool, ghost s: Space, ghost r0: seq<u16>)
    returns (o: Outcome<Operand>, ghost a: Answers)
    requires cpu.Valid() && Alike(s, SpaceOf(cpu))
    requires Logged(cpu.kt, cpu.r, cpu.mmr1, r0) && (!Frozen(cpu.kt.mmr0) ==> cpu.mmr1 < 256)
    modifies cpu`r, cpu`kt, cpu`mmr1, cpu`stackfile, cpu`cpuerr, cpu`yellowPending, cpu`servicingStackTrap,
             cpu`inTrapPush
    ensures cpu.Valid() && Alike(s, SpaceOf(cpu))
    ensures Outcomes(o, s, spec, bytemode, old(cpu.r), a, old(LimitOf(cpu)))
    ensures o.Done? || o == Abort(VEC_MME) ==> BanksOf(cpu) == old(BanksOf(cpu))
    ensures o.Done? ==>
              && cpu.r == Stepped(old(cpu.r), spec, bytemode) && cpu.kt.mmr0 == old(cpu.kt).mmr0
              && Logged(cpu.kt, cpu.r, cpu.mmr1, r0)
              && (!Frozen(cpu.kt.mmr0) && old(cpu.mmr1) == 0 ==> cpu.mmr1 < 256)
    ensures o == Abort(VEC_MME) && !Frozen(old(cpu.kt).mmr0) ==>
              (Accounts(cpu.r, cpu.mmr1, r0) <==> !MovesBeforeRead(spec))
  {
    ghost var was, before, limit := cpu.r, SpaceOf(cpu), LimitOf(cpu);
    o, a := DecodeOperand(cpu, spec, bytemode);
    AlikeResolve(s, before, spec, bytemode, was, a, limit);
    hide OperandOf, ResolutionFaults, ResolutionClear, PointerFaults, LayoutOf;
    if !Frozen(old(cpu.kt).mmr0) {
      if o.Done? {
        StepAccounts(was, old(cpu.mmr1), cpu.kt.mmr0, r0, spec, bytemode);
      } else if o.vec == VEC_MME {
        if MovesBeforeRead(spec) {
          UnloggedStepLost(was, cpu.mmr1, r0, Register(spec));
          AccountsSame(cpu.r, Stepped(was, spec, bytemode), cpu.mmr1, r0);
        } else {
          AccountsSame(cpu.r, was, cpu.mmr1, r0);
        }
      }
    }
  }

  datatype Obtained = Obtained(op: Operand, value: u16)

  /** Resolving an operand and reading it. */
  method Obtain(cpu: Cpu, spec: Spec, bytemode: bool, ghost s: Space, ghost r0: seq<u16>)
    returns (o: Outcome<Obtained>, ghost a: Answered)
    requires cpu.Valid() && Alike(s, SpaceOf(cpu))
    requires Logged(cpu.kt, cpu.r, cpu.mmr1, r0) && (!Frozen(cpu.kt.mmr0) ==> cpu.mmr1 < 256)
    modifies cpu`r, cpu`kt, cpu`mmr1, cpu`stackfile, cpu`cpuerr, cpu`yellowPending, cpu`servicingStackTrap,
             cpu`inTrapPush
    ensures cpu.Valid() && Alike(s, SpaceOf(cpu))
    ensures o.Done? || o == Abort(VEC_MME) ==> BanksOf(cpu) == old(BanksOf(cpu))
    ensures o.Done? ==>
              && o.value.op == OperandOf(s, spec, bytemode, old(cpu.r), a.words)
              && o.value.value == OperandValue(s, spec, bytemode, old(cpu.r), a)
              && OperandStage(s, spec, bytemode, old(cpu.r), a) == Storing
              && cpu.r == Stepped(old(cpu.r), spec, bytemode)
              && cpu.kt.mmr0 == old(cpu.kt).mmr0 && Logged(cpu.kt, cpu.r, cpu.mmr1, r0)
              && (!Frozen(cpu.kt.mmr0) && old(cpu.mmr1) == 0 ==> cpu.mmr1 < 256)
    ensures o == Abort(VEC_MME) ==>
              var stage := OperandStage(s, spec, bytemode, old(cpu.r), a);
              && stage != Storing
              && (!Frozen(old(cpu.kt).mmr0) ==> (Accounts(cpu.r, cpu.mmr1, r0) <==> !LosesStep(stage)))
    ensures PointerFaults(s, spec, old(cpu.r)) && Register(spec) != SP ==> o == Abort(VEC_MME)
    ensures OperandClear(s, spec, bytemode, old(cpu.r), a, old(LimitOf(cpu))) ==> o.Done?
  {
    a := Answered(Answers(0, 0), 0);
    ghost var words: Answers;
    var op;
    op, words := Resolve(cpu, spec, bytemode, s, r0);
    a := Answered(words, 0);
    hide OperandOf, ResolutionFaults, ResolutionClear, Stepped, DataPlace, PointerFaults, ValueOf, ReadFaults, Accounts,
         LayoutOf, Frozen;
    if op.Abort? {
      return Abort(op.vec), a;
    }
    ghost var before := SpaceOf(cpu);
    var value := ReadOperand(cpu, op.value, bytemode);
    AlikeRead(s, before, op.value, bytemode, cpu.r, if value.Done? then value.value else 0);
    if op.value.Mem? {
      AlikePlaces(s, before, op.value.addr, bytemode, false);
    }
    if value.Abort? {
      return Abort(value.vec), a;
    }
    return Done(Obtained(op.value, value.value)), Answered(words, value.value);
  }

  /** What an abort leaves, by the stage memory management stopped it at: the registers recoverable or not, and
      the codes as they were unless the instruction had set them on the way to its store. */
  ghost predicate Stopped(o: Outcome<()>, stage: Stage, early: bool, codes: Nzvc, kt: Mapping, r: seq<u16>, mmr1: u16,
                          r0: seq<u16>, psw: u16, psw': u16)
  {
    && (o == Abort(VEC_MME) && !Frozen(kt.mmr0) ==> (Accounts(r, mmr1, r0) <==> !LosesStep(stage)))
    && (o == Abort(VEC_MME) ==> psw' == if early && stage == Storing then WithCodes(psw, codes) else psw)
    && (o.Abort? ==> psw' == psw || (early && psw' == WithCodes(psw, codes)))
    && (o.Done? ==> stage == Storing)
  }

  method MoveInstruction(cpu: Cpu, word: u16, bytemode: bool, alu: Alu, ghost s: Space, ghost r0: seq<u16>)
    returns (o: Outcome<()>, ghost a: Answered, ghost b: Answered)
    requires cpu.Valid() && !cpu.ccFrozen && Alike(s, SpaceOf(cpu))
    requires Logged(cpu.kt, cpu.r, cpu.mmr1, r0) && (!Frozen(cpu.kt.mmr0) ==> cpu.mmr1 == 0)
    modifies cpu, cpu.mem
    ensures cpu.Valid() && cpu.mmr2 == old(cpu.mmr2)
    ensures o == Abort(VEC_MME) ==>
              Alike(s, SpaceOf(cpu)) && BanksOf(cpu) == old(BanksOf(cpu))
    ensures Stopped(o, MoveStage(s, word, bytemode, old(cpu.r), a, b), false, 0, old(cpu.kt), cpu.r, cpu.mmr1, r0,
                    old(cpu.psw), cpu.psw)
    ensures o == Abort(VEC_MME) ==>
              || MoveStage(s, word, bytemode, old(cpu.r), a, b) != Storing
              || OneRefused(s, word, bytemode, true, Stepped(old(cpu.r), word / 64 % 64, bytemode), b)
    ensures MoveClear(s, word, bytemode, old(cpu.r), a, b, old(LimitOf(cpu))) ==> o.Done?
    ensures o.Done? ==>
              MoveDone(s, word, bytemode, alu, old(cpu.r), old(cpu.psw), a, b, cpu.r, cpu.psw, cpu.mem[..])
  {
    ghost var psw := cpu.psw;
    b := Answered(Answers(0, 0), 0);
    var source;
    source, a := Obtain(cpu, word / 64 % 64, bytemode, s, r0);
    hide OperandOf, OperandValue, OperandClear, ResolutionClear, ResolutionFaults, OperandStage, Stepped, Accounts,
         Frozen, Committed, LayoutOf, PointerFaults, WithCodes, SignExtended;
    if source.Abort? {
      return Abort(source.vec), a, b;
    }
    ghost var words: Answers;
    var dest;
    dest, words := Resolve(cpu, word % 64, bytemode, s, r0);
    b := Answered(words, 0);
    if dest.Abort? {
      return Abort(dest.vec), a, b;
    }
    var widens := bytemode && dest.value.Reg?;
    var value := source.value.value;
    o := Commit(cpu, dest.value, bytemode && !widens, if widens then SignExtended(value) else value,
                alu.codes(word, value, 0, cpu.r, cpu.psw), false, s);
  }

  method DoubleInstruction(cpu: Cpu, word: u16, bytemode: bool, store: bool, early: bool, alu: Alu, ghost s: Space,
                           ghost r0: seq<u16>)
    returns (o: Outcome<()>, ghost a: Answered, ghost b: Answered)
    requires cpu.Valid() && !cpu.ccFrozen && Alike(s, SpaceOf(cpu))
    requires Logged(cpu.kt, cpu.r, cpu.mmr1, r0) && (!Frozen(cpu.kt.mmr0) ==> cpu.mmr1 == 0)
    modifies cpu, cpu.mem
    ensures cpu.Valid() && cpu.mmr2 == old(cpu.mmr2)
    ensures o == Abort(VEC_MME) ==>
              Alike(s, SpaceOf(cpu)) && BanksOf(cpu) == old(BanksOf(cpu))
    ensures Stopped(o, DoubleStage(s, word, bytemode, old(cpu.r), a, b), early,
                    DoubleCodes(s, word, bytemode, alu, old(cpu.r), old(cpu.psw), a, b), old(cpu.kt), cpu.r, cpu.mmr1,
                    r0, old(cpu.psw), cpu.psw)
    ensures o == Abort(VEC_MME) ==>
              || DoubleStage(s, word, bytemode, old(cpu.r), a, b) != Storing
              || OneRefused(s, word, bytemode, store, Stepped(old(cpu.r), word / 64 % 64, bytemode), b)
    ensures DoubleClear(s, word, bytemode, store, old(cpu.r), a, b, old(LimitOf(cpu))) ==> o.Done?
    ensures o.Done? ==>
              DoubleDone(s, word, bytemode, store, alu, old(cpu.r), old(cpu.psw), a, b, cpu.r, cpu.psw, cpu.mem[..])
  {
    b := Answered(Answers(0, 0), 0);
    var source;
    source, a := Obtain(cpu, word / 64 % 64, bytemode, s, r0);
    hide OperandOf, OperandValue, OperandClear, ResolutionClear, ResolutionFaults, OperandStage, Stepped, Accounts,
         Frozen, Committed, LayoutOf, PointerFaults;
    if source.Abort? {
      return Abort(source.vec), a, b;
    }
    o, b := Combine(cpu, word, bytemode, store, early, source.value.value, alu, s, r0);
  }

  /** Resolving and reading one operand, combining it, and storing the result. */
  method Combine(cpu: Cpu, word: u16, bytemode: bool, store: bool, early: bool, x: u16, alu: Alu, ghost s: Space,
                 ghost r0: seq<u16>)
    returns (o: Outcome<()>, ghost b: Answered)
    requires cpu.Valid() && !cpu.ccFrozen && Alike(s, SpaceOf(cpu))
    requires Logged(cpu.kt, cpu.r, cpu.mmr1, r0) && (!Frozen(cpu.kt.mmr0) ==> cpu.mmr1 < 256)
    modifies cpu, cpu.mem
    ensures cpu.Valid() && cpu.mmr2 == old(cpu.mmr2)
    ensures o == Abort(VEC_MME) ==>
              Alike(s, SpaceOf(cpu)) && BanksOf(cpu) == old(BanksOf(cpu))
    ensures Stopped(o, OperandStage(s, word % 64, bytemode, old(cpu.r), b), early,
                    OneCodes(s, word, bytemode, x, alu, old(cpu.r), old(cpu.psw), b), old(cpu.kt), cpu.r, cpu.mmr1, r0,
                    old(cpu.psw), cpu.psw)
    ensures o == Abort(VEC_MME) ==>
              || OperandStage(s, word % 64, bytemode, old(cpu.r), b) != Storing
              || OneRefused(s, word, bytemode, store, old(cpu.r), b)
    ensures OneClear(s, word, bytemode, store, old(cpu.r), b, old(LimitOf(cpu))) ==> o.Done?
    ensures o.Done? ==>
              OneDone(s, word, bytemode, store, x, alu, old(cpu.r), old(cpu.psw), b, cpu.r, cpu.psw, cpu.mem[..])
    ensures PointerFaults(s, word % 64, old(cpu.r)) && Register(word % 64) != SP ==> o == Abort(VEC_MME)
  {
    var dest;
    dest, b := Obtain(cpu, word % 64, bytemode, s, r0);
    hide OperandOf, OperandValue, OperandClear, ResolutionClear, ResolutionFaults, OperandStage, Stepped, Accounts,
         Frozen, Committed, LayoutOf, PointerFaults;
    if dest.Abort? {
      return Abort(dest.vec), b;
    }
    var codes := alu.codes(word, x, dest.value.value, cpu.r, cpu.psw);
    if store {
      o := Commit(cpu, dest.value.op, bytemode, alu.value(word, x, dest.value.value, cpu.r, cpu.psw), codes, early, s);
    } else {
      SetCodes(cpu, codes);
      o := Done(());
    }
  }

  method EisInstruction(cpu: Cpu, word: u16, alu: Alu, ghost s: Space, ghost r0: seq<u16>)
    returns (o: Outcome<()>, ghost b: Answered)
    requires cpu.Valid() && !cpu.ccFrozen && Alike(s, SpaceOf(cpu))
    requires Logged(cpu.kt, cpu.r, cpu.mmr1, r0) && (!Frozen(cpu.kt.mmr0) ==> cpu.mmr1 == 0)
    modifies cpu, cpu.mem
    ensures cpu.Valid() && cpu.mmr2 == old(cpu.mmr2)
    ensures o == Abort(VEC_MME) ==>
              Alike(s, SpaceOf(cpu)) && BanksOf(cpu) == old(BanksOf(cpu))
    ensures Stopped(o, OperandStage(s, word % 64, false, old(cpu.r), b), false, 0, old(cpu.kt), cpu.r, cpu.mmr1, r0,
                    old(cpu.psw), cpu.psw)
    ensures o == Abort(VEC_MME) ==> OperandStage(s, word % 64, false, old(cpu.r), b) != Storing
    ensures OperandClear(s, word % 64, false, old(cpu.r), b, old(LimitOf(cpu))) ==> o.Done?
    ensures o.Done? ==> EisDone(s, word, alu, old(cpu.r), old(cpu.psw), b, cpu.r, cpu.psw, cpu.mem[..])
    ensures PointerFaults(s, word % 64, old(cpu.r)) && Register(word % 64) != SP ==> o == Abort(VEC_MME)
  {
    var source;
    source, b := Obtain(cpu, word % 64, false, s, r0);
    hide OperandOf, OperandValue, OperandClear, ResolutionClear, ResolutionFaults, OperandStage, Stepped, Accounts,
         Frozen, LayoutOf, PointerFaults, WithCodes;
    if source.Abort? {
      return Abort(source.vec), b;
    }
    var y, reg := source.value.value, word / 64 % 8;
    var high, low := alu.value(word, y, 0, cpu.r, cpu.psw), alu.low(word, y, cpu.r, cpu.psw);
    var codes := alu.codes(word, y, 0, cpu.r, cpu.psw);
    cpu.r := cpu.r[reg := high];
    cpu.r := cpu.r[if reg % 2 == 1 then reg else reg + 1 := low];
    SetCodes(cpu, codes);
    return Done(()), b;
  }

  predicate HasOneOperand(word: u16) {
    ShapeOf(word).Single? || ShapeOf(word).Eis?
  }

  /** Everything after the fetch. */
  method Dispatch(cpu: Cpu, word: u16, alu: Alu, ghost s: Space, ghost r0: seq<u16>)
    returns (o: Outcome<()>, ghost a: Answered, ghost b: Answered)
    requires cpu.Valid() && !cpu.ccFrozen && Alike(s, SpaceOf(cpu))
    requires Logged(cpu.kt, cpu.r, cpu.mmr1, r0) && (!Frozen(cpu.kt.mmr0) ==> cpu.mmr1 == 0)
    modifies cpu, cpu.mem
    ensures cpu.Valid() && cpu.mmr2 == old(cpu.mmr2)
    ensures o == Abort(VEC_MME) ==>
              Alike(s, SpaceOf(cpu)) && BanksOf(cpu) == old(BanksOf(cpu))
    ensures Stopped(o, BodyStage(s, word, old(cpu.r), a, b), SetsCodesEarly(ShapeOf(word)),
                    BodyCodes(s, word, alu, old(cpu.r), old(cpu.psw), a, b), old(cpu.kt), cpu.r, cpu.mmr1, r0,
                    old(cpu.psw), cpu.psw)
    ensures o == Abort(VEC_MME) ==>
              BodyStage(s, word, old(cpu.r), a, b) != Storing || BodyRefused(s, word, old(cpu.r), b)
    ensures BodyClear(s, word, old(cpu.r), a, b, old(LimitOf(cpu))) ==> o.Done?
    ensures o.Done? ==>
              Completed(s, word, alu, old(cpu.r), old(cpu.psw), a, b, cpu.r, cpu.psw, cpu.mem[..])
    ensures HasOneOperand(word) && PointerFaults(s, word % 64, old(cpu.r)) && Register(word % 64) != SP ==>
              o == Abort(VEC_MME)
  {
    a, b := Answered(Answers(0, 0), 0), Answered(Answers(0, 0), 0);
    hide OperandClear, MoveClear, DoubleClear, OneClear, OneRefused, OperandStage, DoubleStage, MoveStage, MoveDone,
         DoubleDone, OneDone, EisDone, OneCodes, DoubleCodes, PointerFaults, Accounts, Frozen, LayoutOf, ShapeOf,
         WithCodes;
    match ShapeOf(word) {
      case Move(bytemode) => o, a, b := MoveInstruction(cpu, word, bytemode, alu, s, r0);
      case Double(bytemode, store, early) =>
        o, a, b := DoubleInstruction(cpu, word, bytemode, store, early, alu, s, r0);
      case Single(bytemode, store, early) => o, b := Combine(cpu, word, bytemode, store, early, 0, alu, s, r0);
      case Eis => o, b := EisInstruction(cpu, word, alu, s, r0);
      case Other => o := Done(());
    }
  }

  /** What a step records before it fetches: unless MMR0 holds a fault, an empty log and the instruction's address. */
  method Snapshot(cpu: Cpu)
    requires cpu.Valid()
    modifies cpu`ccFrozen, cpu`mmr1, cpu`mmr2
    ensures cpu.Valid() && !cpu.ccFrozen && Logged(cpu.kt, cpu.r, cpu.mmr1, cpu.r)
    ensures if Frozen(cpu.kt.mmr0) then cpu.mmr1 == old(cpu.mmr1) && cpu.mmr2 == old(cpu.mmr2)
            else cpu.mmr1 == 0 && cpu.mmr2 == cpu.r[PC]
  {
    cpu.ccFrozen := false;
    if !Frozen(cpu.kt.mmr0) {
      cpu.mmr1 := 0;
      cpu.mmr2 := cpu.r[PC];
      UndoNothing(cpu.r);
    }
  }

  /** Abort recovery, for every instruction shape, mode and register. The stage at which memory management stops an
      instruction is a function of the state before it, and it decides two things. If MMR0 was not already holding
      a fault, undoing MMR1's two steps and restarting at MMR2 gives back all eight registers exactly - unless the
      access refused was the pointer read of an autodecrement-deferred operand, in which case it never does. And
      the status word is untouched, unless the access was the store of an instruction that sets its codes first.
      Management aborts an instruction only at such an access or at its store, and an instruction whose accesses all
      reach installed memory completes. The ghost results are what the I/O page answered, should it read from there. */
  method Execute(cpu: Cpu, alu: Alu) returns (o: Outcome<()>, word: u16, ghost a: Answered, ghost b: Answered)
    requires cpu.Valid()
    modifies cpu, cpu.mem
    ensures cpu.Valid() && (!Frozen(old(cpu.kt).mmr0) ==> cpu.mmr2 == old(cpu.r)[PC])
    ensures o == Abort(VEC_MME) ==>
              Alike(old(SpaceOf(cpu)), SpaceOf(cpu)) && BanksOf(cpu) == old(BanksOf(cpu))
    ensures var p := StreamPlace(old(SpaceOf(cpu)), old(cpu.r)[PC]);
            && (p.Ram? ==> word == old(cpu.mem[..])[p.pa / 2])
            && (p.Fault? ==> o == Abort(p.vec))
    ensures var s, r0, psw := old(SpaceOf(cpu)), old(cpu.r), old(cpu.psw);
            var stage := StageOf(s, word, r0, a, b);
            && (o == Abort(VEC_MME) && !Frozen(old(cpu.kt).mmr0) ==>
                (Recovered(cpu.r, cpu.mmr1, cpu.mmr2) == r0 <==> !LosesStep(stage)))
            && (o == Abort(VEC_MME) ==> cpu.psw == PswAt(s, stage, word, alu, r0, psw, a, b))
            && (o.Abort? ==> cpu.psw == psw || cpu.psw == PswAt(s, Storing, word, alu, r0, psw, a, b))
            && (o.Done? ==> stage == Storing
                            && Completed(s, word, alu, AfterFetch(r0), psw, a, b, cpu.r, cpu.psw, cpu.mem[..]))
    ensures var s, r0 := old(SpaceOf(cpu)), old(cpu.r);
            && (o == Abort(VEC_MME) ==>
                StageOf(s, word, r0, a, b) != Storing || BodyRefused(s, word, AfterFetch(r0), b))
            && (StreamPlace(s, r0[PC]).Ram? && BodyClear(s, word, AfterFetch(r0), a, b, old(LimitOf(cpu))) ==> o.Done?)
    ensures var s, r0 := old(SpaceOf(cpu)), old(cpu.r);
            var dest := word % 64;
            HasOneOperand(word) && PointerFaults(s, dest, AfterFetch(r0)) && Register(dest) != SP ==>
              StreamPlace(s, r0[PC]).Ram? ==> o == Abort(VEC_MME)
  {
    ghost var r0, psw, s := cpu.r, cpu.psw, SpaceOf(cpu);
    hide StreamPlace, Accounts, Frozen, LayoutOf, StageOf, BodyClear, BodyRefused, Completed, BodyCodes, Recovered,
         ShapeOf, PointerFaults, WithCodes, LosesStep, SetsCodesEarly, HasOneOperand, Alike;
    Snapshot(cpu);
    o, word, a, b := FetchAndDispatch(cpu, alu, s, r0);
    RecoveredIff(cpu.r, cpu.mmr1, r0);
  }

  /** A step from its fetch on. */
  method FetchAndDispatch(cpu: Cpu, alu: Alu, ghost s: Space, ghost r0: seq<u16>)
    returns (o: Outcome<()>, word: u16, ghost a: Answered, ghost b: Answered)
    requires cpu.Valid() && !cpu.ccFrozen && s == SpaceOf(cpu) && r0 == cpu.r
    requires Logged(cpu.kt, cpu.r, cpu.mmr1, r0) && (!Frozen(cpu.kt.mmr0) ==> cpu.mmr1 == 0)
    modifies cpu, cpu.mem
    ensures cpu.Valid() && cpu.mmr2 == old(cpu.mmr2)
    ensures o == Abort(VEC_MME) ==> Alike(s, SpaceOf(cpu)) && BanksOf(cpu) == old(BanksOf(cpu))
    ensures var p := StreamPlace(s, r0[PC]); (p.Ram? ==> word == s.ram[p.pa / 2]) && (p.Fault? ==> o == Abort(p.vec))
    ensures Stopped(o, StageOf(s, word, r0, a, b), SetsCodesEarly(ShapeOf(word)),
                    BodyCodes(s, word, alu, AfterFetch(r0), old(cpu.psw), a, b), old(cpu.kt), cpu.r, cpu.mmr1, r0,
                    old(cpu.psw), cpu.psw)
    ensures o.Done? ==> Completed(s, word, alu, AfterFetch(r0), old(cpu.psw), a, b, cpu.r, cpu.psw, cpu.mem[..])
    ensures o == Abort(VEC_MME) ==> StageOf(s, word, r0, a, b) != Storing || BodyRefused(s, word, AfterFetch(r0), b)
    ensures StreamPlace(s, r0[PC]).Ram? && BodyClear(s, word, AfterFetch(r0), a, b, old(LimitOf(cpu))) ==> o.Done?
    ensures var dest := word % 64;
            HasOneOperand(word) && PointerFaults(s, dest, AfterFetch(r0)) && Register(dest) != SP ==>
              StreamPlace(s, r0[PC]).Ram? ==> o == Abort(VEC_MME)
  {
    a, b := Answered(Answers(0, 0), 0), Answered(Answers(0, 0), 0);
    hide StreamPlace, Accounts, Frozen, LayoutOf, BodyStage, BodyClear, BodyRefused, Completed, BodyCodes, Plus,
         ShapeOf, PointerFaults, WithCodes, LosesStep, SetsCodesEarly, HasOneOperand;
    NothingLost();
    var fetched := Fetch(cpu);
    if fetched.Abort? {
      return Abort(fetched.vec), 0, a, b;
    }
    word := fetched.value;
    if !Frozen(cpu.kt.mmr0) {
      PcUnlogged(r0, cpu.mmr1, r0, Plus(r0[PC], 2));
    }
    o, a, b := Dispatch(cpu, word, alu, s, r0);
  }

  lemma NothingLost()
    ensures !LosesStep(Fetching) && !LosesStep(Storing)
  {
  }

  const CLR_AT_MINUS_R1: u16 := 0x0A29
  const RESIDENT: u16 := 0x7F06

  /** CLR @-(R1) with page 0 resident, page 1 not, and R1 just above the start of page 1. */
  ghost predicate PointerPageAbsent(s: Space, r: seq<u16>) {
    && IsSpace(s) && |r| == 8 && s.mode == 0 && s.memTop == 0x1_0000 && s.m.mmr0 == 1 && s.m.mmr3 == 0
    && s.m.par[0] == 0 && s.m.pdr[0] == RESIDENT && s.m.pdr[1] == 0
    && r[PC] == 0 && r[1] == 0x2002 && s.ram[0] == CLR_AT_MINUS_R1
  }

  lemma PointerPageFaults(s: Space, r: seq<u16>)
    requires PointerPageAbsent(s, r)
    ensures StreamPlace(s, r[PC]) == Ram(0) && HasOneOperand(CLR_AT_MINUS_R1)
    ensures PointerFaults(s, CLR_AT_MINUS_R1 % 64, AfterFetch(r)) && Register(CLR_AT_MINUS_R1 % 64) == 1
  {
    assert AddressMode(CLR_AT_MINUS_R1 % 64) == 5;
    assert PageIndex(0, 0x2000, 0, true) == 1 && PageIndex(0, 0, 0, false) == 0;
    assert Relocated(0, 0, 0) == 0;
  }

  /** A run in which recovery fails: R1 is left two short. */
  method LoseStep(alu: Alu) returns (cpu: Cpu, ghost r0: seq<u16>, o: Outcome<()>)
    ensures fresh(cpu) && cpu.Valid() && |r0| == 8 && r0[1] == 0x2002
    ensures o == Abort(VEC_MME) && Recovered(cpu.r, cpu.mmr1, cpu.mmr2) != r0
  {
    cpu := new Cpu(0x1_0000);
    cpu.kt := Mapping(1, 0, seq(64, _ => 0), seq(64, _ => 0)[0 := RESIDENT]);
    cpu.r := cpu.r[1 := 0x2002];
    cpu.mem[0] := CLR_AT_MINUS_R1;
    r0 := cpu.r;
    PointerPageFaults(SpaceOf(cpu), r0);
    ghost var s := SpaceOf(cpu);
    hide PointerFaults, StreamPlace, Recovered, Completed, BodyClear, BodyRefused, HasOneOperand, PswAt;
    var word;
    ghost var a, b;
    o, word, a, b := Execute(cpu, alu);
    LosesIff(s, word, r0, a, b);
  }
}
