/** Operand resolution and the instructions built on it: fetch, resolve, read, write, each of which can abort. */
module Operands {
  import opened Arith
  import opened Words
  import opened Kt11
  import opened Memory
  import opened Psw
  import opened Cpu
  import opened Recovery
  import opened Stack

  /** A resolved operand. An immediate also has an address, for a store over the instruction stream. */
  datatype Operand = Reg(reg: nat) | Imm(value: u16, addr: u16) | Mem(addr: u16)

  /** Only the autodecrement-deferred mode moves its register before an access that can fault. */
  predicate MovesBeforeRead(spec: Spec) {
    AddressMode(spec) == 5 && Register(spec) != PC
  }

  // ---- what an instruction's addresses mean -----------------------------------------------------------------

  /** A mode's addresses: its mapping over memory. */
  datatype Space = Space(m: Mapping, memTop: nat, mode: nat, ram: seq<u16>)

  predicate IsSpace(s: Space) {
    WellFormed(s.m) && s.mode < 4 && IsRam(s.ram)
  }

  /** Spaces that differ at most in flags no translation reads. */
  ghost predicate Alike(s: Space, s': Space) {
    && IsSpace(s) && IsSpace(s') && LayoutOf(s.m) == LayoutOf(s'.m)
    && s.memTop == s'.memTop && s.mode == s'.mode && s.ram == s'.ram
  }

  ghost function SpaceOf(cpu: Cpu): (s: Space)
    requires cpu.Valid()
    reads cpu, cpu.mem
    ensures IsSpace(s)
  {
    Space(cpu.kt, cpu.memTop, Mode(cpu.psw), cpu.mem[..])
  }

  /** A word of the instruction stream. */
  function StreamPlace(s: Space, va: u16): (p: Place)
    requires IsSpace(s)
    ensures p.Ram? ==> p.pa < IOPAGE_TOP
  {
    LocateWord(s.m, s.memTop, va, false, s.mode, false)
  }

  function DataPlace(s: Space, va: u16, bytemode: bool, write: bool): (p: Place)
    requires IsSpace(s)
    ensures p.Ram? ==> p.pa < IOPAGE_TOP
  {
    if bytemode then Locate(s.m, s.memTop, va, write, s.mode, true)
    else LocateWord(s.m, s.memTop, va, write, s.mode, true)
  }

  /** The mapping registers of one space, of every mode, agree. */
  ghost predicate SameSpace(m: Mapping, m': Mapping, dspace: bool)
    requires WellFormed(m) && WellFormed(m')
  {
    && m.mmr0 == m'.mmr0 && m.mmr3 == m'.mmr3
    && forall i :: 0 <= i < 64 && (i / 8 % 2 == 1 <==> dspace) ==> m.par[i] == m'.par[i] && m.pdr[i] == m'.pdr[i]
  }

  /** The instruction stream goes by the instruction-space registers alone, and where a mode has its data space on,
      operands and pointers by the data-space registers alone. */
  lemma SpacesApart(s: Space, s': Space, va: u16, bytemode: bool, write: bool)
    requires IsSpace(s) && IsSpace(s') && s.memTop == s'.memTop && s.mode == s'.mode
    ensures SameSpace(s.m, s'.m, false) ==> StreamPlace(s, va) == StreamPlace(s', va)
    ensures SameSpace(s.m, s'.m, true) && DataSpaceOn(s.m.mmr3, s.mode) ==>
              DataPlace(s, va, bytemode, write) == DataPlace(s', va, bytemode, write)
  {
    SpaceOfPage(s.m.mmr3, va, s.mode, false);
    SpaceOfPage(s.m.mmr3, va, s.mode, true);
    hide PageIndex, PageError, Relocated, DataSpaceOn;
  }

  lemma SpaceOfPage(mmr3: u16, va: u16, mode: nat, dspace: bool)
    requires mode < 4
    ensures PageIndex(mmr3, va, mode, dspace) / 8 % 2 == 1 <==> dspace && DataSpaceOn(mmr3, mode)
  {
    hide DataSpaceOn;
    var d := if dspace && DataSpaceOn(mmr3, mode) then 1 else 0;
    DivUnique(PageIndex(mmr3, va, mode, dspace), 8, mode * 2 + d);
  }

  /** The word read from a place; a register of the I/O page gives an answer of its own. */
  function WordAt(s: Space, p: Place, answer: u16): u16
    requires IsSpace(s) && (p.Ram? ==> p.pa < IOPAGE_TOP)
  {
    if p.Ram? then s.ram[p.pa / 2] else answer
  }

  /** What the I/O page answers when an index word or a pointer is taken from it. */
  datatype Answers = Answers(index: u16, pointer: u16)

  /** The base and index of modes 6 and 7: the index word is fetched before the register is read, so an index
      on the PC counts from beyond it. */
  function IndexedAddress(s: Space, spec: Spec, r: seq<u16>, a: Answers): u16
    requires IsSpace(s) && |r| == 8
  {
    Plus(WordAt(s, StreamPlace(s, r[PC]), a.index), r[PC := Plus(r[PC], 2)][Register(spec)])
  }

  /** The operand a specifier names. */
  function OperandOf(s: Space, spec: Spec, bytemode: bool, r: seq<u16>, a: Answers): (op: Operand)
    requires IsSpace(s) && |r| == 8
    ensures op.Reg? ==> op.reg < 8 && AddressMode(spec) == 0
  {
    var reg := Register(spec);
    match AddressMode(spec)
    case 0 => Reg(reg)
    case 1 => Mem(r[reg])
    case 2 => if reg == PC then Imm(WordAt(s, StreamPlace(s, r[PC]), a.index), r[PC]) else Mem(r[reg])
    case 3 => Mem(WordAt(s, if reg == PC then StreamPlace(s, r[PC]) else DataPlace(s, r[reg], false, false), a.pointer))
    case 4 => Mem(Stepped(r, spec, bytemode)[reg])
    case 5 => Mem(WordAt(s, PointerPlace(s, spec, r), a.pointer))
    case 6 => Mem(IndexedAddress(s, spec, r, a))
    case _ => Mem(WordAt(s, DataPlace(s, IndexedAddress(s, spec, r, a), false, false), a.pointer))
  }

  /** Where mode 5 reads its pointer. */
  function PointerPlace(s: Space, spec: Spec, r: seq<u16>): (p: Place)
    requires IsSpace(s) && |r| == 8
    ensures p.Ram? ==> p.pa < IOPAGE_TOP
  {
    DataPlace(s, Plus(r[Register(spec)], -2), false, false)
  }

  /** Where an operand's own word is. */
  function WordOf(s: Space, op: Operand, answer: u16): u16
    requires IsSpace(s) && !op.Reg?
  {
    match op
    case Imm(_, addr) => WordAt(s, StreamPlace(s, addr), answer)
    case Mem(addr) => WordAt(s, DataPlace(s, addr, false, false), answer)
  }

  /** The addressing modes by what they have to do with each other. Register mode names the register, and register
      deferred the word its contents point at; the deferred form of each other mode takes the word operand of the plain
      form as a pointer; and an index is added to the register as it is once the index word has been fetched. */
  lemma ModesAre(s: Space, spec: Spec, bytemode: bool, r: seq<u16>, a: Answers)
    requires IsSpace(s) && |r| == 8
    ensures var mode, reg, op := spec / 8, spec % 8, OperandOf(s, spec, bytemode, r, a);
            && (mode == 0 ==> op == Reg(reg)) && (mode == 1 ==> op == Mem(r[reg]))
            && (mode in {3, 5, 7} ==> op == Mem(WordOf(s, OperandOf(s, spec - 8, false, r, a), a.pointer)))
            && (mode == 6 ==>
                var x := WordAt(s, StreamPlace(s, r[7]), a.index);
                op == Mem(Plus(x, if reg == 7 then Plus(r[7], 2) else r[reg])))
  {
    assert AddressMode(spec) in {3, 5, 7} ==>
             AddressMode(spec - 8) == AddressMode(spec) - 1 && Register(spec - 8) == Register(spec);
    hide DataPlace, StreamPlace, Plus;
  }

  /** Autodecrement undoes autoincrement: on any register and at either width it names the same place again and leaves
      the registers as they were. */
  lemma DecrementUndoesIncrement(s: Space, reg: nat, bytemode: bool, r: seq<u16>, a: Answers)
    requires IsSpace(s) && |r| == 8 && reg < 8
    ensures var up, down := 16 + reg, 32 + reg;
            var r', op := Stepped(r, up, bytemode), OperandOf(s, up, bytemode, r, a);
            && Stepped(r', down, bytemode) == r && OperandOf(s, down, bytemode, r', a) == Mem(r[reg])
            && !op.Reg? && op.addr == r[reg]
  {
    assert AddressMode(16 + reg) == 2 && AddressMode(32 + reg) == 4 && Register(16 + reg) == Register(32 + reg) == reg;
    PlusUndone(r[reg], StepSize(reg, bytemode));
    hide DataPlace, StreamPlace, Plus, StepSize;
  }

  /** Memory management refuses an access that resolving the specifier needs. */
  predicate ResolutionFaults(s: Space, spec: Spec, r: seq<u16>, a: Answers)
    requires IsSpace(s) && |r| == 8
  {
    var reg := Register(spec);
    match AddressMode(spec)
    case 2 => reg == PC && StreamPlace(s, r[PC]) == Fault(VEC_MME)
    case 3 => (if reg == PC then StreamPlace(s, r[PC]) else DataPlace(s, r[reg], false, false)) == Fault(VEC_MME)
    case 5 => PointerPlace(s, spec, r) == Fault(VEC_MME)
    case 6 => StreamPlace(s, r[PC]) == Fault(VEC_MME)
    case 7 => || StreamPlace(s, r[PC]) == Fault(VEC_MME)
              || DataPlace(s, IndexedAddress(s, spec, r, a), false, false) == Fault(VEC_MME)
    case _ => false
  }

  /** The access after whose refusal a step is missing from the log. */
  predicate PointerFaults(s: Space, spec: Spec, r: seq<u16>)
    requires IsSpace(s) && |r| == 8
  {
    MovesBeforeRead(spec) && PointerPlace(s, spec, r) == Fault(VEC_MME)
  }

  /** The parked registers and the state of the stack limit, which only a red-zone abort changes. */
  datatype Banks = Banks(regfile: seq<seq<u16>>, stackfile: seq<u16>, stklim: u16, exempt: bool, servicing: bool)

  ghost function BanksOf(cpu: Cpu): Banks
    reads cpu
  {
    Banks(cpu.regfile, cpu.stackfile, cpu.stklim, cpu.inTrapPush, cpu.servicingStackTrap)
  }

  /** What the stack limit is judged by. */
  datatype Limit = Limit(stklim: u16, psw: u16, exempt: bool)

  ghost function LimitOf(cpu: Cpu): Limit
    reads cpu
  {
    Limit(cpu.stklim, cpu.psw, cpu.inTrapPush)
  }

  predicate Red(l: Limit, sp: u16) {
    ZoneOf(l.stklim, l.psw, l.exempt, sp) == Zone.Red
  }

  /** Every access resolving the specifier makes is to installed memory, and SP does not step into the red zone. */
  predicate ResolutionClear(s: Space, spec: Spec, bytemode: bool, r: seq<u16>, a: Answers, l: Limit)
    requires IsSpace(s) && |r| == 8
  {
    var reg := Register(spec);
    match AddressMode(spec)
    case 2 => reg == PC ==> StreamPlace(s, r[PC]).Ram?
    case 3 => (if reg == PC then StreamPlace(s, r[PC]) else DataPlace(s, r[reg], false, false)).Ram?
    case 4 => reg == SP ==> !Red(l, Stepped(r, spec, bytemode)[SP])
    case 5 => PointerPlace(s, spec, r).Ram? && (reg == SP ==> !Red(l, Plus(r[SP], -2)))
    case 6 => StreamPlace(s, r[PC]).Ram?
    case 7 => StreamPlace(s, r[PC]).Ram? && DataPlace(s, IndexedAddress(s, spec, r, a), false, false).Ram?
    case _ => true
  }

  /** Outcomes of resolving a specifier: a management abort comes of a refused access, and a refused access
      lets nothing complete. The stack limit can abort first, but only on SP. With nothing in its way it completes. */
  ghost predicate Outcomes(o: Outcome<Operand>, s: Space, spec: Spec, bytemode: bool, r: seq<u16>, a: Answers, l: Limit)
    requires IsSpace(s) && |r| == 8
  {
    && (o.Done? ==> o.value == OperandOf(s, spec, bytemode, r, a))
    && (ResolutionClear(s, spec, bytemode, r, a, l) ==> o.Done?)
    && (o == Abort(VEC_MME) ==> ResolutionFaults(s, spec, r, a))
    && (ResolutionFaults(s, spec, r, a) ==> o.Abort?)
    && (PointerFaults(s, spec, r) && Register(spec) != SP ==> o == Abort(VEC_MME))
  }

  /** Alike spaces mean the same operands and refuse the same accesses. */
  lemma AlikeResolve(s: Space, s': Space, spec: Spec, bytemode: bool, r: seq<u16>, a: Answers, l: Limit)
    requires Alike(s, s') && |r| == 8
    ensures ResolutionClear(s, spec, bytemode, r, a, l) == ResolutionClear(s', spec, bytemode, r, a, l)
    ensures OperandOf(s, spec, bytemode, r, a) == OperandOf(s', spec, bytemode, r, a)
    ensures ResolutionFaults(s, spec, r, a) == ResolutionFaults(s', spec, r, a)
    ensures PointerFaults(s, spec, r) == PointerFaults(s', spec, r)
  {
    hide *;
    AlikeNames(s, s', spec, bytemode, r, a);
    AlikeRefusals(s, s', spec, r, a);
    AlikeClear(s, s', spec, bytemode, r, a, l);
  }

  lemma AlikeRefusals(s: Space, s': Space, spec: Spec, r: seq<u16>, a: Answers)
    requires Alike(s, s') && |r| == 8
    ensures ResolutionFaults(s, spec, r, a) == ResolutionFaults(s', spec, r, a)
    ensures PointerFaults(s, spec, r) == PointerFaults(s', spec, r)
  {
    hide StreamPlace, DataPlace, PointerPlace, IndexedAddress, Plus, LayoutOf, AddressMode, Register;
    AlikeAccesses(s, s', spec, r, a);
  }

  lemma AlikeClear(s: Space, s': Space, spec: Spec, bytemode: bool, r: seq<u16>, a: Answers, l: Limit)
    requires Alike(s, s') && |r| == 8
    ensures ResolutionClear(s, spec, bytemode, r, a, l) == ResolutionClear(s', spec, bytemode, r, a, l)
  {
    hide StreamPlace, DataPlace, PointerPlace, IndexedAddress, Stepped, Plus, LayoutOf, Red, AddressMode, Register;
    AlikeAccesses(s, s', spec, r, a);
  }

  /** The places resolving a specifier can reach. */
  lemma AlikeAccesses(s: Space, s': Space, spec: Spec, r: seq<u16>, a: Answers)
    requires Alike(s, s') && |r| == 8
    ensures StreamPlace(s, r[PC]) == StreamPlace(s', r[PC])
    ensures DataPlace(s, r[Register(spec)], false, false) == DataPlace(s', r[Register(spec)], false, false)
    ensures PointerPlace(s, spec, r) == PointerPlace(s', spec, r)
    ensures IndexedAddress(s, spec, r, a) == IndexedAddress(s', spec, r, a)
    ensures var x := IndexedAddress(s, spec, r, a); DataPlace(s, x, false, false) == DataPlace(s', x, false, false)
  {
    hide StreamPlace, DataPlace, IndexedAddress, Plus, LayoutOf, Register;
    AlikePlaces(s, s', r[PC], false, false);
    AlikePlaces(s, s', r[Register(spec)], false, false);
    AlikePlaces(s, s', Plus(r[Register(spec)], -2), false, false);
    AlikeIndex(s, s', spec, r, a);
    AlikePlaces(s, s', IndexedAddress(s, spec, r, a), false, false);
  }

  lemma AlikeNames(s: Space, s': Space, spec: Spec, bytemode: bool, r: seq<u16>, a: Answers)
    requires Alike(s, s') && |r| == 8
    ensures OperandOf(s, spec, bytemode, r, a) == OperandOf(s', spec, bytemode, r, a)
  {
    hide StreamPlace, DataPlace, PointerPlace, IndexedAddress, Stepped, Plus, LayoutOf, AddressMode, Register;
    AlikeAccesses(s, s', spec, r, a);
  }

  lemma AlikeIndex(s: Space, s': Space, spec: Spec, r: seq<u16>, a: Answers)
    requires Alike(s, s') && |r| == 8
    ensures IndexedAddress(s, spec, r, a) == IndexedAddress(s', spec, r, a)
  {
    AlikePlaces(s, s', r[PC], false, false);
    hide StreamPlace, DataPlace, Plus, LayoutOf;
  }

  lemma AlikePlaces(s: Space, s': Space, va: u16, bytemode: bool, write: bool)
    requires Alike(s, s')
    ensures StreamPlace(s, va) == StreamPlace(s', va)
    ensures DataPlace(s, va, bytemode, write) == DataPlace(s', va, bytemode, write)
  {
    LayoutDecides(s.m, s'.m, s.memTop, va, false, s.mode, false);
    LayoutDecides(s.m, s'.m, s.memTop, va, write, s.mode, true);
    hide LayoutOf, Locate;
  }

  // ---- the accesses themselves --------------------------------------------------------------------------------

  method Fetch(cpu: Cpu) returns (o: Outcome<u16>)
    requires cpu.Valid()
    modifies cpu`r, cpu`kt
    ensures cpu.Valid() && Alike(old(SpaceOf(cpu)), SpaceOf(cpu))
    ensures o.Done? ==> cpu.r == old(cpu.r)[PC := Plus(old(cpu.r)[PC], 2)] && cpu.kt.mmr0 == old(cpu.kt).mmr0
    ensures o.Abort? ==> cpu.r == old(cpu.r)
    ensures var p := StreamPlace(old(SpaceOf(cpu)), old(cpu.r)[PC]);
            && (p.Ram? ==> o == Done(cpu.mem[p.pa / 2]))
            && (p.Fault? ==> o == Abort(p.vec))
            && (o == Abort(VEC_MME) ==> p == Fault(VEC_MME))
  {
    o := cpu.ReadWordGen(cpu.r[PC], Mode(cpu.psw), false);
    if o.Done? {
      cpu.r := cpu.r[PC := Plus(cpu.r[PC], 2)];
    }
  }

  method ReadPointer(cpu: Cpu, va: u16) returns (o: Outcome<u16>)
    requires cpu.Valid()
    modifies cpu`kt
    ensures cpu.Valid() && Alike(old(SpaceOf(cpu)), SpaceOf(cpu))
    ensures o.Done? ==> cpu.kt.mmr0 == old(cpu.kt).mmr0
    ensures var p := DataPlace(old(SpaceOf(cpu)), va, false, false);
            && (p.Ram? ==> o == Done(cpu.mem[p.pa / 2]))
            && (p.Fault? ==> o == Abort(p.vec))
            && (o == Abort(VEC_MME) ==> p == Fault(VEC_MME))
  {
    o := cpu.ReadWordGen(va, Mode(cpu.psw), true);
  }

  /** mmr1_track */
  method Track(cpu: Cpu, reg: nat, delta: int)
    requires cpu.Valid() && reg < 8 && -16 <= delta < 16
    modifies cpu`mmr1
    ensures cpu.mmr1 == if Frozen(cpu.kt.mmr0) || reg == PC then old(cpu.mmr1)
                        else Tracked(old(cpu.mmr1), Encoded(reg, delta))
  {
    if reg == PC || Frozen(cpu.kt.mmr0) {
      return;
    }
    cpu.mmr1 := Tracked(cpu.mmr1, Encoded(reg, delta));
  }

  /** decode_operand: the register moves once, and the move is logged once it can no longer be lost - except
      in mode 5, where the pointer is read first. The ghost result is what the I/O page answered. */
  method DecodeOperand(cpu: Cpu, spec: Spec, bytemode: bool) returns (o: Outcome<Operand>, ghost a: Answers)
    requires cpu.Valid()
    modifies cpu`r, cpu`kt, cpu`mmr1, cpu`stackfile, cpu`cpuerr, cpu`yellowPending, cpu`servicingStackTrap,
             cpu`inTrapPush
    ensures cpu.Valid() && Outcomes(o, old(SpaceOf(cpu)), spec, bytemode, old(cpu.r), a, old(LimitOf(cpu)))
    ensures Alike(old(SpaceOf(cpu)), SpaceOf(cpu))
    ensures o.Done? ==>
              && cpu.r == Stepped(old(cpu.r), spec, bytemode)
              && cpu.mmr1 == LogAfter(old(cpu.mmr1), old(cpu.kt).mmr0, spec, bytemode)
              && cpu.kt.mmr0 == old(cpu.kt).mmr0
    ensures o.Done? || o == Abort(VEC_MME) ==> BanksOf(cpu) == old(BanksOf(cpu))
    ensures o == Abort(VEC_MME) ==>
              && cpu.mmr1 == old(cpu.mmr1)
              && cpu.r[..PC] == (if MovesBeforeRead(spec) then Stepped(old(cpu.r), spec, bytemode)[..PC]
                                 else old(cpu.r)[..PC])
    ensures AddressMode(spec) < 2 ==> o.Done? && cpu.Core() == old(cpu.Core()) && cpu.kt == old(cpu.kt)
  {
    var mode, reg := AddressMode(spec), Register(spec);
    a := Answers(0, 0);
    hide StreamPlace, DataPlace;
    if mode == 0 {
      NoStep(cpu.r, spec, bytemode);
      o := Done(Reg(reg));
    } else if mode == 1 {
      NoStep(cpu.r, spec, bytemode);
      o := Done(Mem(cpu.r[reg]));
    } else if mode == 2 {
      o, a := Autoincrement(cpu, spec, bytemode);
    } else if mode == 3 {
      o, a := AutoincrementDeferred(cpu, spec, bytemode);
    } else if mode == 4 {
      o := Autodecrement(cpu, spec, bytemode);
    } else if mode == 5 {
      o, a := AutodecrementDeferred(cpu, spec, bytemode);
    } else {
      o, a := Indexed(cpu, spec, bytemode);
    }
  }

  lemma NoStep(r: seq<u16>, spec: Spec, bytemode: bool)
    requires |r| == 8 && AddressMode(spec) < 2
    ensures Stepped(r, spec, bytemode) == r && Delta(spec, bytemode) == 0
  {
  }

  method Autoincrement(cpu: Cpu, spec: Spec, bytemode: bool) returns (o: Outcome<Operand>, ghost a: Answers)
    requires cpu.Valid() && AddressMode(spec) == 2
    modifies cpu`r, cpu`kt, cpu`mmr1
    ensures cpu.Valid() && Outcomes(o, old(SpaceOf(cpu)), spec, bytemode, old(cpu.r), a, old(LimitOf(cpu)))
    ensures Alike(old(SpaceOf(cpu)), SpaceOf(cpu))
    ensures o.Done? ==>
              && cpu.r == Stepped(old(cpu.r), spec, bytemode)
              && cpu.mmr1 == LogAfter(old(cpu.mmr1), old(cpu.kt).mmr0, spec, bytemode)
              && cpu.kt.mmr0 == old(cpu.kt).mmr0
    ensures o.Abort? ==> cpu.mmr1 == old(cpu.mmr1) && cpu.r == old(cpu.r)
  {
    var reg := Register(spec);
    a := Answers(0, 0);
    hide StreamPlace, DataPlace;
    if reg == PC {
      var addr := cpu.r[PC];
      var word := Fetch(cpu);
      if word.Abort? {
        return Abort(word.vec), a;
      }
      return Done(Imm(word.value, addr)), Answers(word.value, 0);
    }
    var step := StepSize(reg, bytemode);
    var addr := cpu.r[reg];
    cpu.r := cpu.r[reg := Plus(cpu.r[reg], step)];
    Track(cpu, reg, step);
    o := Done(Mem(addr));
  }

  method AutoincrementDeferred(cpu: Cpu, spec: Spec, bytemode: bool) returns (o: Outcome<Operand>, ghost a: Answers)
    requires cpu.Valid() && AddressMode(spec) == 3
    modifies cpu`r, cpu`kt, cpu`mmr1
    ensures cpu.Valid() && Outcomes(o, old(SpaceOf(cpu)), spec, bytemode, old(cpu.r), a, old(LimitOf(cpu)))
    ensures Alike(old(SpaceOf(cpu)), SpaceOf(cpu))
    ensures o.Done? ==>
              && cpu.r == Stepped(old(cpu.r), spec, bytemode)
              && cpu.mmr1 == LogAfter(old(cpu.mmr1), old(cpu.kt).mmr0, spec, bytemode)
              && cpu.kt.mmr0 == old(cpu.kt).mmr0
    ensures o.Abort? ==> cpu.mmr1 == old(cpu.mmr1) && cpu.r == old(cpu.r)
  {
    var reg := Register(spec);
    a := Answers(0, 0);
    hide StreamPlace, DataPlace;
    if reg == PC {
      var word := Fetch(cpu);
      if word.Abort? {
        return Abort(word.vec), a;
      }
      return Done(Mem(word.value)), Answers(0, word.value);
    }
    var pointer := ReadPointer(cpu, cpu.r[reg]);
    if pointer.Abort? {
      return Abort(pointer.vec), a;
    }
    cpu.r := cpu.r[reg := Plus(cpu.r[reg], 2)];
    Track(cpu, reg, 2);
    return Done(Mem(pointer.value)), Answers(0, pointer.value);
  }

  method Autodecrement(cpu: Cpu, spec: Spec, bytemode: bool) returns (o: Outcome<Operand>)
    requires cpu.Valid() && AddressMode(spec) == 4
    modifies cpu`r, cpu`mmr1, cpu`stackfile, cpu`cpuerr, cpu`yellowPending, cpu`servicingStackTrap, cpu`inTrapPush
    ensures cpu.Valid()
    ensures o.Done? ==>
              && cpu.r == Stepped(old(cpu.r), spec, bytemode) && o.value == Mem(cpu.r[Register(spec)])
              && cpu.mmr1 == LogAfter(old(cpu.mmr1), cpu.kt.mmr0, spec, bytemode)
    ensures if o.Done?
            then BanksOf(cpu) == old(BanksOf(cpu))
            else && o.vec == VEC_BUS && Register(spec) == SP
                 && Red(old(LimitOf(cpu)), Stepped(old(cpu.r), spec, bytemode)[SP])
  {
    var reg := Register(spec);
    var step: int := StepSize(reg, bytemode);
    cpu.r := cpu.r[reg := Plus(cpu.r[reg], 0 - step)];
    var addr := cpu.r[reg];
    Track(cpu, reg, 0 - step);
    if reg == SP {
      var zone := CheckStackLimit(cpu, cpu.r[reg]);
      if zone.Abort? {
        return Abort(zone.vec);
      }
    }
    return Done(Mem(addr));
  }

  method AutodecrementDeferred(cpu: Cpu, spec: Spec, bytemode: bool) returns (o: Outcome<Operand>, ghost a: Answers)
    requires cpu.Valid() && AddressMode(spec) == 5
    modifies cpu`r, cpu`kt, cpu`mmr1, cpu`stackfile, cpu`cpuerr, cpu`yellowPending, cpu`servicingStackTrap,
             cpu`inTrapPush
    ensures cpu.Valid() && Outcomes(o, old(SpaceOf(cpu)), spec, bytemode, old(cpu.r), a, old(LimitOf(cpu)))
    ensures Alike(old(SpaceOf(cpu)), SpaceOf(cpu))
    ensures o.Done? ==>
              && cpu.r == Stepped(old(cpu.r), spec, bytemode)
              && cpu.mmr1 == LogAfter(old(cpu.mmr1), old(cpu.kt).mmr0, spec, bytemode)
              && cpu.kt.mmr0 == old(cpu.kt).mmr0
    ensures o.Done? || o == Abort(VEC_MME) ==> BanksOf(cpu) == old(BanksOf(cpu))
    ensures o == Abort(VEC_MME) ==>
              cpu.mmr1 == old(cpu.mmr1) && cpu.r == Stepped(old(cpu.r), spec, bytemode)
  {
    var reg := Register(spec);
    ghost var s, r, l := SpaceOf(cpu), cpu.r, LimitOf(cpu);
    a := Answers(0, 0);
    DeferredDown(s, spec, bytemode, r, a, l);
    hide StreamPlace, DataPlace, LayoutOf, Red, OperandOf, ResolutionFaults, ResolutionClear, PointerFaults,
         PointerPlace, MovesBeforeRead, Stepped, Delta, Frozen;
    var down := StepDown(cpu, reg);
    if down.Abort? {
      return Abort(down.vec), a;
    }
    var pointer := ReadPointer(cpu, cpu.r[reg]);
    if pointer.Abort? {
      return Abort(pointer.vec), a;
    }
    Track(cpu, reg, -2);
    a := Answers(0, pointer.value);
    DeferredDown(s, spec, bytemode, r, a, l);
    return Done(Mem(pointer.value)), a;
  }

  /** What mode 5 comes to. */
  lemma DeferredDown(s: Space, spec: Spec, bytemode: bool, r: seq<u16>, a: Answers, l: Limit)
    requires IsSpace(s) && |r| == 8 && AddressMode(spec) == 5
    ensures var reg, p := Register(spec), DataPlace(s, Plus(r[Register(spec)], -2), false, false);
            && OperandOf(s, spec, bytemode, r, a) == Mem(WordAt(s, p, a.pointer))
            && (ResolutionFaults(s, spec, r, a) <==> p == Fault(VEC_MME))
            && (PointerFaults(s, spec, r) ==> p == Fault(VEC_MME))
            && (ResolutionClear(s, spec, bytemode, r, a, l) <==> p.Ram? && (reg == SP ==> !Red(l, Plus(r[SP], -2))))
            && Stepped(r, spec, bytemode) == r[reg := Plus(r[reg], -2)] && Delta(spec, bytemode) == -2
  {
    hide DataPlace, Red, Plus;
  }

  /** A register steps down over a word; SP is held to the stack limit. */
  method StepDown(cpu: Cpu, reg: nat) returns (o: Outcome<()>)
    requires cpu.Valid() && reg < 8
    modifies cpu`r, cpu`stackfile, cpu`cpuerr, cpu`yellowPending, cpu`servicingStackTrap, cpu`inTrapPush
    ensures cpu.Valid()
    ensures o.Done? ==> cpu.r == old(cpu.r)[reg := Plus(old(cpu.r)[reg], -2)] && BanksOf(cpu) == old(BanksOf(cpu))
    ensures o.Abort? ==> o.vec == VEC_BUS && reg == SP && Red(old(LimitOf(cpu)), Plus(old(cpu.r)[SP], -2))
  {
    cpu.r := cpu.r[reg := Plus(cpu.r[reg], -2)];
    o := Done(());
    if reg == SP {
      o := CheckStackLimit(cpu, cpu.r[reg]);
    }
  }

  method Indexed(cpu: Cpu, spec: Spec, bytemode: bool) returns (o: Outcome<Operand>, ghost a: Answers)
    requires cpu.Valid() && AddressMode(spec) >= 6
    modifies cpu`r, cpu`kt
    ensures cpu.Valid() && Outcomes(o, old(SpaceOf(cpu)), spec, bytemode, old(cpu.r), a, old(LimitOf(cpu)))
    ensures Alike(old(SpaceOf(cpu)), SpaceOf(cpu))
    ensures o.Done? ==>
              && cpu.r == Stepped(old(cpu.r), spec, bytemode)
              && cpu.kt.mmr0 == old(cpu.kt).mmr0
    ensures o.Abort? ==> cpu.r[..PC] == old(cpu.r)[..PC]
  {
    ghost var s, r, l := SpaceOf(cpu), cpu.r, LimitOf(cpu);
    a := Answers(0, 0);
    IndexedParts(s, spec, bytemode, r, a, l);
    hide StreamPlace, DataPlace, LayoutOf, OperandOf, ResolutionFaults, ResolutionClear, PointerFaults, Stepped;
    var base := Fetch(cpu);
    if base.Abort? {
      return Abort(base.vec), a;
    }
    a := Answers(base.value, 0);
    IndexedParts(s, spec, bytemode, r, a, l);
    var addr := Plus(base.value, cpu.r[Register(spec)]);
    assert addr == IndexedAddress(s, spec, r, a);
    if AddressMode(spec) == 7 {
      AlikePlaces(s, SpaceOf(cpu), addr, false, false);
      var pointer := ReadPointer(cpu, addr);
      if pointer.Abort? {
        return Abort(pointer.vec), a;
      }
      a := Answers(base.value, pointer.value);
      IndexedParts(s, spec, bytemode, r, a, l);
      return Done(Mem(pointer.value)), a;
    }
    return Done(Mem(addr)), a;
  }

  /** What modes 6 and 7 come to. */
  lemma IndexedParts(s: Space, spec: Spec, bytemode: bool, r: seq<u16>, a: Answers, l: Limit)
    requires IsSpace(s) && |r| == 8 && AddressMode(spec) >= 6
    ensures var deferred, x, p := AddressMode(spec) == 7, IndexedAddress(s, spec, r, a), StreamPlace(s, r[PC]);
            var q := DataPlace(s, x, false, false);
            && OperandOf(s, spec, bytemode, r, a) == Mem(if deferred then WordAt(s, q, a.pointer) else x)
            && (ResolutionFaults(s, spec, r, a) <==> p == Fault(VEC_MME) || (deferred && q == Fault(VEC_MME)))
            && !PointerFaults(s, spec, r)
            && (ResolutionClear(s, spec, bytemode, r, a, l) <==> p.Ram? && (deferred ==> q.Ram?))
            && Stepped(r, spec, bytemode) == r[PC := Plus(r[PC], 2)]
  {
    hide DataPlace, StreamPlace, IndexedAddress, Plus;
  }
}
