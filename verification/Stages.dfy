/** What an instruction does, decided before it runs: how far it gets before memory management stops it, and what
    it leaves when nothing does. */
module Stages {
  import opened Words
  import opened Kt11
  import opened Memory
  import opened Psw
  import opened Cpu
  import opened Recovery
  import opened Operands

  /** How an instruction uses its operands: double-operand, single-operand (XOR among them), and the register
      EIS instructions. One that stores sets the condition codes either before the store or after it. */
  datatype Shape = Move(bytemode: bool)
                 | Double(bytemode: bool, store: bool, early: bool)
                 | Single(bytemode: bool, store: bool, early: bool)
                 | Eis | Other

  /** ADD and SUB set the codes on the way to their result; CMP and BIT store nothing, BIC and BIS set them last. */
  function ShapeOf(word: u16): Shape {
    var top := word / 0x1000;
    if top == 1 || top == 9 then Move(top == 9)
    else if top == 2 || top == 3 || top == 10 || top == 11 then Double(top >= 8, false, false)
    else if top == 4 || top == 5 || top == 12 || top == 13 then Double(top >= 8, true, false)
    else if top == 6 || top == 14 then Double(false, true, true)
    else if top == 7 then RegisterShape(word / 0x200 % 8)
    else if top == 0 || top == 8 then SingleShape(word / 64 % 0x200, top == 8)
    else Other
  }

  /** MUL, DIV, ASH and ASHC read an operand into a register pair; XOR combines a register into one. */
  function RegisterShape(code: nat): Shape {
    if code < 4 then Eis else if code == 4 then Single(false, true, false) else Other
  }

  /** CLR to ASL (octal 050 to 063), of which TST stores nothing, SWAB and SXT. */
  function SingleShape(base: nat, bytemode: bool): Shape {
    if 40 <= base <= 51 then Single(bytemode, base != 47, base != 47)
    else if (base == 3 || base == 55) && !bytemode then Single(false, true, true)
    else Other
  }

  predicate Ranges(word: u16, low: nat, high: nat) { low <= word < high }

  /** The instructions by their opcodes. */
  lemma ShapesAre(word: u16)
    // MOV, MOVB
    ensures Ranges(word, 0x1000, 0x2000) ==> ShapeOf(word) == Move(false)
    ensures Ranges(word, 0x9000, 0xA000) ==> ShapeOf(word) == Move(true)
    // CMP and BIT, CMPB and BITB: nothing is stored
    ensures Ranges(word, 0x2000, 0x4000) ==> ShapeOf(word) == Double(false, false, false)
    ensures Ranges(word, 0xA000, 0xC000) ==> ShapeOf(word) == Double(true, false, false)
    // BIC and BIS, BICB and BISB
    ensures Ranges(word, 0x4000, 0x6000) ==> ShapeOf(word) == Double(false, true, false)
    ensures Ranges(word, 0xC000, 0xE000) ==> ShapeOf(word) == Double(true, true, false)
    // ADD, SUB: words only, codes first
    ensures Ranges(word, 0x6000, 0x7000) || Ranges(word, 0xE000, 0xF000) ==> ShapeOf(word) == Double(false, true, true)
    // MUL, DIV, ASH and ASHC, and XOR
    ensures Ranges(word, 0x7000, 0x7800) ==> ShapeOf(word) == Eis
    ensures Ranges(word, 0x7800, 0x7A00) ==> ShapeOf(word) == Single(false, true, false)
    // CLR to SBC and ROR to ASL, and their byte forms
    ensures Ranges(word, 0x0A00, 0x0BC0) || Ranges(word, 0x0C00, 0x0D00) ==> ShapeOf(word) == Single(false, true, true)
    ensures Ranges(word, 0x8A00, 0x8BC0) || Ranges(word, 0x8C00, 0x8D00) ==> ShapeOf(word) == Single(true, true, true)
    // TST and TSTB: nothing is stored
    ensures Ranges(word, 0x0BC0, 0x0C00) ==> ShapeOf(word) == Single(false, false, false)
    ensures Ranges(word, 0x8BC0, 0x8C00) ==> ShapeOf(word) == Single(true, false, false)
    // SWAB, SXT
    ensures Ranges(word, 0x00C0, 0x0100) || Ranges(word, 0x0DC0, 0x0E00) ==> ShapeOf(word) == Single(false, true, true)
  {
    var top := word / 0x1000;
    assert word == top * 0x1000 + word % 0x1000;
    if top == 7 {
      RegisterCode(word, word % 0x1000);
    } else if top == 0 || top == 8 {
      SingleCode(word, top, word % 0x1000);
    }
  }

  lemma RegisterCode(word: u16, low: nat)
    requires low < 0x1000 && word == 0x7000 + low
    ensures word / 0x200 % 8 == low / 0x200
  {
  }

  lemma SingleCode(word: u16, top: nat, low: nat)
    requires low < 0x1000 && word == top * 0x1000 + low && top in {0, 8}
    ensures word / 64 % 0x200 == low / 64
  {
  }

  predicate SetsCodesEarly(shape: Shape) {
    (shape.Double? || shape.Single?) && shape.early
  }

  type Nzvc = x: int | 0 <= x < 16

  /** The arithmetic: what an instruction stores and the codes it sets, given its word, operands, registers and
      status; the EIS instructions leave a second word as well. */
  datatype Alu = Alu(value: (u16, u16, u16, seq<u16>, u16) -> u16, low: (u16, u16, seq<u16>, u16) -> u16,
                     codes: (u16, u16, u16, seq<u16>, u16) -> Nzvc)

  // ---- how far an instruction gets --------------------------------------------------------------------------

  /** The access memory management refuses: the fetch, one that resolves a specifier, or the read of an operand.
      With none of those refused, only the store is left. */
  datatype Stage = Fetching | Resolving(spec: Spec) | Reading | Storing

  predicate LosesStep(stage: Stage) {
    stage.Resolving? && MovesBeforeRead(stage.spec)
  }

  /** What the I/O page answers in the course of an operand: to its address words, and to its read. */
  datatype Answered = Answered(words: Answers, value: u16)

  /** An operand's value, read once its specifier is resolved. */
  function OperandValue(s: Space, spec: Spec, bytemode: bool, r: seq<u16>, a: Answered): u16
    requires IsSpace(s) && |r| == 8
  {
    ValueOf(s, OperandOf(s, spec, bytemode, r, a.words), bytemode, Stepped(r, spec, bytemode), a.value)
  }

  function ValueOf(s: Space, op: Operand, bytemode: bool, r: seq<u16>, answer: u16): u16
    requires IsSpace(s) && |r| == 8 && (op.Reg? ==> op.reg < 8)
  {
    match op
    case Reg(reg) => if bytemode then r[reg] % 256 else r[reg]
    case Imm(value, _) => if bytemode then value % 256 else value
    case Mem(addr) =>
      var p := DataPlace(s, addr, bytemode, false);
      if p.Ram? then Loaded(s.ram, p.pa, bytemode) else answer
  }

  predicate ReadFaults(s: Space, op: Operand, bytemode: bool)
    requires IsSpace(s)
  {
    op.Mem? && DataPlace(s, op.addr, bytemode, false) == Fault(VEC_MME)
  }

  /** Resolving and reading one operand. */
  function OperandStage(s: Space, spec: Spec, bytemode: bool, r: seq<u16>, a: Answered): Stage
    requires IsSpace(s) && |r| == 8
  {
    if ResolutionFaults(s, spec, r, a.words) then Resolving(spec)
    else if ReadFaults(s, OperandOf(s, spec, bytemode, r, a.words), bytemode) then Reading
    else Storing
  }

  /** A source operand, then a destination resolved from the registers the source left. */
  function DoubleStage(s: Space, word: u16, bytemode: bool, r: seq<u16>, a: Answered, b: Answered): Stage
    requires IsSpace(s) && |r| == 8
  {
    var source := OperandStage(s, word / 64 % 64, bytemode, r, a);
    if source != Storing then source
    else OperandStage(s, word % 64, bytemode, Stepped(r, word / 64 % 64, bytemode), b)
  }

  /** A move does not read its destination. */
  function MoveStage(s: Space, word: u16, bytemode: bool, r: seq<u16>, a: Answered, b: Answered): Stage
    requires IsSpace(s) && |r| == 8
  {
    var source := OperandStage(s, word / 64 % 64, bytemode, r, a);
    if source != Storing then source
    else if ResolutionFaults(s, word % 64, Stepped(r, word / 64 % 64, bytemode), b.words) then Resolving(word % 64)
    else Storing
  }

  function AfterFetch(r: seq<u16>): (r': seq<u16>)
    requires |r| == 8
    ensures |r'| == 8
  {
    r[PC := Plus(r[PC], 2)]
  }

  /** How far an instruction gets, decided before it runs. */
  function StageOf(s: Space, word: u16, r: seq<u16>, a: Answered, b: Answered): Stage
    requires IsSpace(s) && |r| == 8
  {
    if StreamPlace(s, r[PC]) == Fault(VEC_MME) then Fetching
    else BodyStage(s, word, AfterFetch(r), a, b)
  }

  function BodyStage(s: Space, word: u16, r: seq<u16>, a: Answered, b: Answered): Stage
    requires IsSpace(s) && |r| == 8
  {
    match ShapeOf(word)
    case Move(bytemode) => MoveStage(s, word, bytemode, r, a, b)
    case Double(bytemode, _, _) => DoubleStage(s, word, bytemode, r, a, b)
    case Single(bytemode, _, _) => OperandStage(s, word % 64, bytemode, r, b)
    case Eis => OperandStage(s, word % 64, false, r, b)
    case Other => Storing
  }

  /** Of one operand, the step is lost just when its specifier is autodecrement-deferred on a register other than
      the PC and memory management refuses the word it points at. */
  lemma OperandLosesIff(s: Space, spec: Spec, bytemode: bool, r: seq<u16>, a: Answered)
    requires IsSpace(s) && |r| == 8
    ensures LosesStep(OperandStage(s, spec, bytemode, r, a)) <==> PointerFaults(s, spec, r)
  {
    hide PointerPlace, StreamPlace, DataPlace, IndexedAddress, OperandOf;
  }

  /** Of two, it is either's: the destination's only if the source gets through, and then from the registers the
      source has stepped. */
  predicate EitherPointerFaults(s: Space, source: Spec, dest: Spec, bytemode: bool, r: seq<u16>, a: Answered)
    requires IsSpace(s) && |r| == 8
  {
    || PointerFaults(s, source, r)
    || (OperandStage(s, source, bytemode, r, a) == Storing && PointerFaults(s, dest, Stepped(r, source, bytemode)))
  }

  lemma DoubleLosesIff(s: Space, word: u16, bytemode: bool, r: seq<u16>, a: Answered, b: Answered)
    requires IsSpace(s) && |r| == 8
    ensures var lost := EitherPointerFaults(s, word / 64 % 64, word % 64, bytemode, r, a);
            && (LosesStep(DoubleStage(s, word, bytemode, r, a, b)) <==> lost)
            && (LosesStep(MoveStage(s, word, bytemode, r, a, b)) <==> lost)
  {
    var r' := Stepped(r, word / 64 % 64, bytemode);
    OperandLosesIff(s, word / 64 % 64, bytemode, r, a);
    OperandLosesIff(s, word % 64, bytemode, r', b);
    hide ReadFaults, PointerPlace, StreamPlace, DataPlace, IndexedAddress, OperandOf, Stepped;
  }

  /** Of a whole instruction: nothing is lost if it was not fetched; otherwise the condition is on the registers and
      the mapping it was fetched with. */
  lemma LosesIff(s: Space, word: u16, r: seq<u16>, a: Answered, b: Answered)
    requires IsSpace(s) && |r| == 8
    ensures var r1, source, dest := AfterFetch(r), word / 64 % 64, word % 64;
            LosesStep(StageOf(s, word, r, a, b)) <==>
              && StreamPlace(s, r[PC]) != Fault(VEC_MME)
              && (match ShapeOf(word)
                  case Single(_, _, _) => PointerFaults(s, dest, r1)
                  case Eis => PointerFaults(s, dest, r1)
                  case Move(bytemode) => EitherPointerFaults(s, source, dest, bytemode, r1, a)
                  case Double(bytemode, _, _) => EitherPointerFaults(s, source, dest, bytemode, r1, a)
                  case Other => false)
  {
    var r1 := AfterFetch(r);
    hide OperandStage, DoubleStage, MoveStage, PointerFaults, StreamPlace, EitherPointerFaults, AfterFetch, ShapeOf;
    match ShapeOf(word)
    case Move(bytemode) => DoubleLosesIff(s, word, bytemode, r1, a, b);
    case Double(bytemode, _, _) => DoubleLosesIff(s, word, bytemode, r1, a, b);
    case Single(bytemode, _, _) => OperandLosesIff(s, word % 64, bytemode, r1, b);
    case Eis => OperandLosesIff(s, word % 64, false, r1, b);
    case Other =>
  }

  lemma AlikeRead(s: Space, s': Space, op: Operand, bytemode: bool, r: seq<u16>, answer: u16)
    requires Alike(s, s') && |r| == 8 && (op.Reg? ==> op.reg < 8)
    ensures ValueOf(s, op, bytemode, r, answer) == ValueOf(s', op, bytemode, r, answer)
    ensures ReadFaults(s, op, bytemode) == ReadFaults(s', op, bytemode)
  {
    if op.Mem? {
      AlikePlaces(s, s', op.addr, bytemode, false);
    }
    assert s.ram == s'.ram;
    hide DataPlace, Alike;
  }

  // ---- when it completes --------------------------------------------------------------------------------------

  /** Resolving and reading an operand meets nothing but installed memory. */
  predicate OperandClear(s: Space, spec: Spec, bytemode: bool, r: seq<u16>, a: Answered, l: Limit)
    requires IsSpace(s) && |r| == 8
  {
    var op := OperandOf(s, spec, bytemode, r, a.words);
    ResolutionClear(s, spec, bytemode, r, a.words, l) && (op.Mem? ==> DataPlace(s, op.addr, bytemode, false).Ram?)
  }

  predicate StoreClear(s: Space, op: Operand, bytemode: bool)
    requires IsSpace(s)
  {
    !op.Reg? ==> DataPlace(s, op.addr, bytemode, true).Ram?
  }

  predicate StoreRefused(s: Space, op: Operand, bytemode: bool)
    requires IsSpace(s)
  {
    !op.Reg? && DataPlace(s, op.addr, bytemode, true) == Fault(VEC_MME)
  }

  predicate OneClear(s: Space, word: u16, bytemode: bool, store: bool, r: seq<u16>, b: Answered, l: Limit)
    requires IsSpace(s) && |r| == 8
  {
    && OperandClear(s, word % 64, bytemode, r, b, l)
    && (store ==> StoreClear(s, OperandOf(s, word % 64, bytemode, r, b.words), bytemode))
  }

  predicate OneRefused(s: Space, word: u16, bytemode: bool, store: bool, r: seq<u16>, b: Answered)
    requires IsSpace(s) && |r| == 8
  {
    store && StoreRefused(s, OperandOf(s, word % 64, bytemode, r, b.words), bytemode)
  }

  predicate MoveClear(s: Space, word: u16, bytemode: bool, r: seq<u16>, a: Answered, b: Answered, l: Limit)
    requires IsSpace(s) && |r| == 8
  {
    var rs := Stepped(r, word / 64 % 64, bytemode);
    && OperandClear(s, word / 64 % 64, bytemode, r, a, l) && ResolutionClear(s, word % 64, bytemode, rs, b.words, l)
    && StoreClear(s, OperandOf(s, word % 64, bytemode, rs, b.words), bytemode)
  }

  predicate DoubleClear(s: Space, word: u16, bytemode: bool, store: bool, r: seq<u16>, a: Answered, b: Answered,
                        l: Limit)
    requires IsSpace(s) && |r| == 8
  {
    && OperandClear(s, word / 64 % 64, bytemode, r, a, l)
    && OneClear(s, word, bytemode, store, Stepped(r, word / 64 % 64, bytemode), b, l)
  }

  /** An instruction whose every access, the store included, is to installed memory, off the red zone. */
  predicate BodyClear(s: Space, word: u16, r: seq<u16>, a: Answered, b: Answered, l: Limit)
    requires IsSpace(s) && |r| == 8
  {
    match ShapeOf(word)
    case Move(bytemode) => MoveClear(s, word, bytemode, r, a, b, l)
    case Double(bytemode, store, _) => DoubleClear(s, word, bytemode, store, r, a, b, l)
    case Single(bytemode, store, _) => OneClear(s, word, bytemode, store, r, b, l)
    case Eis => OperandClear(s, word % 64, false, r, b, l)
    case Other => true
  }

  /** Memory management refuses the store. */
  predicate BodyRefused(s: Space, word: u16, r: seq<u16>, b: Answered)
    requires IsSpace(s) && |r| == 8
  {
    match ShapeOf(word)
    case Move(bytemode) => OneRefused(s, word, bytemode, true, Stepped(r, word / 64 % 64, bytemode), b)
    case Double(bytemode, store, _) => OneRefused(s, word, bytemode, store, Stepped(r, word / 64 % 64, bytemode), b)
    case Single(bytemode, store, _) => OneRefused(s, word, bytemode, store, r, b)
    case _ => false
  }

  // ---- what it leaves ---------------------------------------------------------------------------------------

  /** A result stored where an operand says, and the codes set: everything but that is as it was. A store into
      the I/O page is the subject of Cpu.IoWrite. */
  ghost predicate Committed(s: Space, op: Operand, bytemode: bool, value: u16, codes: Nzvc, r: seq<u16>, psw: u16,
                            r': seq<u16>, psw': u16, ram': seq<u16>)
    requires IsSpace(s) && |r| == 8 && (op.Reg? ==> op.reg < 8)
  {
    if op.Reg? then
      && r' == r[op.reg := if bytemode then WithHalf(r[op.reg], false, value % 256) else value]
      && psw' == WithCodes(psw, codes) && ram' == s.ram
    else
      var p := DataPlace(s, op.addr, bytemode, true);
      && !p.Fault?
      && (p.Ram? ==> r' == r && psw' == WithCodes(psw, codes) && ram' == Stored(s.ram, p.pa, bytemode, value))
  }

  /** An instruction that stores nothing in memory. */
  ghost predicate Settled(s: Space, codes: Nzvc, r: seq<u16>, psw: u16, r': seq<u16>, psw': u16, ram': seq<u16>)
    requires IsSpace(s)
  {
    r' == r && psw' == WithCodes(psw, codes) && ram' == s.ram
  }

  ghost predicate MoveDone(s: Space, word: u16, bytemode: bool, alu: Alu, r: seq<u16>, psw: u16, a: Answered,
                           b: Answered, r': seq<u16>, psw': u16, ram': seq<u16>)
    requires IsSpace(s) && |r| == 8
  {
    var source, dest := word / 64 % 64, word % 64;
    var value, rs := OperandValue(s, source, bytemode, r, a), Stepped(r, source, bytemode);
    var op, rd := OperandOf(s, dest, bytemode, rs, b.words), Stepped(rs, dest, bytemode);
    var widens := bytemode && op.Reg?;
    Committed(s, op, bytemode && !op.Reg?, if widens then SignExtended(value) else value,
              alu.codes(word, value, 0, rd, psw), rd, psw, r', psw', ram')
  }

  ghost predicate DoubleDone(s: Space, word: u16, bytemode: bool, store: bool, alu: Alu, r: seq<u16>, psw: u16,
                             a: Answered, b: Answered, r': seq<u16>, psw': u16, ram': seq<u16>)
    requires IsSpace(s) && |r| == 8
  {
    var source := word / 64 % 64;
    var x, rs := OperandValue(s, source, bytemode, r, a), Stepped(r, source, bytemode);
    OneDone(s, word, bytemode, store, x, alu, rs, psw, b, r', psw', ram')
  }

  /** Reading, combining and storing one operand. */
  ghost predicate OneDone(s: Space, word: u16, bytemode: bool, store: bool, x: u16, alu: Alu, r: seq<u16>, psw: u16,
                          b: Answered, r': seq<u16>, psw': u16, ram': seq<u16>)
    requires IsSpace(s) && |r| == 8
  {
    var dest := word % 64;
    var y, rd := OperandValue(s, dest, bytemode, r, b), Stepped(r, dest, bytemode);
    var codes := alu.codes(word, x, y, rd, psw);
    if store then Committed(s, OperandOf(s, dest, bytemode, r, b.words), bytemode, alu.value(word, x, y, rd, psw),
                            codes, rd, psw, r', psw', ram')
    else Settled(s, codes, rd, psw, r', psw', ram')
  }

  ghost predicate EisDone(s: Space, word: u16, alu: Alu, r: seq<u16>, psw: u16, b: Answered,
                          r': seq<u16>, psw': u16, ram': seq<u16>)
    requires IsSpace(s) && |r| == 8
  {
    var y, rd := OperandValue(s, word % 64, false, r, b), Stepped(r, word % 64, false);
    var reg := word / 64 % 8;
    var pair := if reg % 2 == 1 then reg else reg + 1;
    var high, low := alu.value(word, y, 0, rd, psw), alu.low(word, y, rd, psw);
    Settled(s, alu.codes(word, y, 0, rd, psw), rd[reg := high][pair := low], psw, r', psw', ram')
  }

  /** What a completed instruction leaves in the registers, the status word and memory. */
  ghost predicate Completed(s: Space, word: u16, alu: Alu, r: seq<u16>, psw: u16, a: Answered, b: Answered,
                            r': seq<u16>, psw': u16, ram': seq<u16>)
    requires IsSpace(s) && |r| == 8
  {
    match ShapeOf(word)
    case Move(bytemode) => MoveDone(s, word, bytemode, alu, r, psw, a, b, r', psw', ram')
    case Double(bytemode, store, _) => DoubleDone(s, word, bytemode, store, alu, r, psw, a, b, r', psw', ram')
    case Single(bytemode, store, _) => OneDone(s, word, bytemode, store, 0, alu, r, psw, b, r', psw', ram')
    case Eis => EisDone(s, word, alu, r, psw, b, r', psw', ram')
    case Other => r' == r && psw' == psw && ram' == s.ram
  }

  // ---- instructions between registers -------------------------------------------------------------------------

  /** The source is named by bits 11 to 6 of the instruction and the destination by bits 5 to 0: between registers, a
      move copies the one to the other, any other word instruction that stores combines the source with the
      destination, in that order, into the destination, and one that does not store only sets the codes. */
  lemma BetweenRegisters(s: Space, word: u16, op: nat, source: nat, dest: nat, alu: Alu, r: seq<u16>, psw: u16,
                         a: Answered, b: Answered, r': seq<u16>, psw': u16, ram': seq<u16>)
    requires IsSpace(s) && |r| == 8 && source < 8 && dest < 8 && word == op * 0x1000 + source * 64 + dest
    requires Completed(s, word, alu, r, psw, a, b, r', psw', ram')
    ensures op == 1 ==> r' == r[dest := r[source]] && psw' == WithCodes(psw, alu.codes(word, r[source], 0, r, psw))
    ensures op in {4, 5, 6, 14} ==> r' == r[dest := alu.value(word, r[source], r[dest], r, psw)]
    ensures op in {2, 3} ==> r' == r
    ensures op in {2, 3, 4, 5, 6, 14} ==> psw' == WithCodes(psw, alu.codes(word, r[source], r[dest], r, psw))
    ensures op in {1, 2, 3, 4, 5, 6, 14} ==> ram' == s.ram && FieldsOf(psw') == FieldsOf(psw).(codes := Codes(psw'))
  {
    if op in {1, 2, 3, 4, 5, 6, 14} {
      WordParts(word, op, source, dest);
      ShapesAre(word);
      RegisterOperand(s, source, false, r, a);
      RegisterOperand(s, dest, false, r, b);
      hide Stepped, OperandOf, OperandValue, FieldsOf, ShapeOf;
    }
  }

  /** A byte instruction takes the low bytes and leaves the high byte of its destination alone, but for a move, which
      extends the sign through it. */
  lemma BytesBetweenRegisters(s: Space, word: u16, op: nat, source: nat, dest: nat, alu: Alu, r: seq<u16>, psw: u16,
                              a: Answered, b: Answered, r': seq<u16>, psw': u16, ram': seq<u16>)
    requires IsSpace(s) && |r| == 8 && source < 8 && dest < 8 && word == op * 0x1000 + source * 64 + dest
    requires Completed(s, word, alu, r, psw, a, b, r', psw', ram')
    ensures var x, y := r[source] % 256, r[dest] % 256;
            && (op == 9 ==> r' == r[dest := SignExtended(x)] && psw' == WithCodes(psw, alu.codes(word, x, 0, r, psw)))
            && (op in {12, 13} ==> r' == r[dest := WithHalf(r[dest], false, alu.value(word, x, y, r, psw) % 256)])
            && (op in {10, 11} ==> r' == r)
            && (op in {10, 11, 12, 13} ==> psw' == WithCodes(psw, alu.codes(word, x, y, r, psw)))
    ensures op in {9, 10, 11, 12, 13} ==> ram' == s.ram
  {
    if op in {9, 10, 11, 12, 13} {
      WordParts(word, op, source, dest);
      ShapesAre(word);
      RegisterOperand(s, source, true, r, a);
      RegisterOperand(s, dest, true, r, b);
      RegisterOperand(s, dest, true, Stepped(r, source, true), b);
      hide Stepped, OperandOf, OperandValue, WithCodes, ShapeOf, WithHalf, SignExtended;
    }
  }

  /** A single-operand instruction on a register; it has no source, which the arithmetic is given as zero. */
  lemma OnRegister(s: Space, word: u16, alu: Alu, r: seq<u16>, psw: u16, a: Answered, b: Answered, r': seq<u16>,
                   psw': u16, ram': seq<u16>)
    requires IsSpace(s) && |r| == 8 && word % 64 < 8 && ShapeOf(word).Single?
    requires Completed(s, word, alu, r, psw, a, b, r', psw', ram')
    ensures var dest, shape := word % 64, ShapeOf(word);
            var y := if shape.bytemode then r[dest] % 256 else r[dest];
            var value := alu.value(word, 0, y, r, psw);
            && psw' == WithCodes(psw, alu.codes(word, 0, y, r, psw)) && ram' == s.ram
            && r' == if !shape.store then r
                     else r[dest := if shape.bytemode then WithHalf(r[dest], false, value % 256) else value]
  {
    RegisterOperand(s, word % 64, ShapeOf(word).bytemode, r, b);
    hide Stepped, OperandOf, OperandValue, WithCodes, ShapeOf, WithHalf;
  }

  /** An EIS instruction leaves its first word in the register named by bits 8 to 6 and its second in the odd register
      of the pair, which may be the same. */
  lemma RegisterPair(s: Space, word: u16, code: nat, reg: nat, odd: nat, source: nat, alu: Alu, r: seq<u16>, psw: u16,
                     a: Answered, b: Answered, r': seq<u16>, psw': u16, ram': seq<u16>)
    requires IsSpace(s) && |r| == 8 && code < 4 && source < 8 && odd < 8 && odd % 2 == 1 && reg in {odd, odd - 1}
    requires word == 0x7000 + code * 0x200 + reg * 64 + source
    requires Completed(s, word, alu, r, psw, a, b, r', psw', ram')
    ensures |r'| == 8 && ram' == s.ram && psw' == WithCodes(psw, alu.codes(word, r[source], 0, r, psw))
    ensures r'[odd] == alu.low(word, r[source], r, psw)
    ensures reg != odd ==> r'[reg] == alu.value(word, r[source], 0, r, psw)
    ensures forall i :: 0 <= i < 8 && i != reg && i != odd ==> r'[i] == r[i]
  {
    hide Stepped, OperandOf, OperandValue, WithCodes, ShapeOf, Completed;
    EisParts(word, code, reg, source);
    EisShape(word, code, reg, source);
    RegisterOperand(s, source, false, r, b);
    EisCompleted(s, word, alu, r, psw, a, b, r', psw', ram');
  }

  lemma EisCompleted(s: Space, word: u16, alu: Alu, r: seq<u16>, psw: u16, a: Answered, b: Answered, r': seq<u16>,
                     psw': u16, ram': seq<u16>)
    requires IsSpace(s) && |r| == 8 && ShapeOf(word) == Eis && Completed(s, word, alu, r, psw, a, b, r', psw', ram')
    ensures EisDone(s, word, alu, r, psw, b, r', psw', ram')
  {
    hide EisDone, ShapeOf;
  }

  lemma EisParts(word: u16, code: nat, reg: nat, source: nat)
    requires code < 4 && reg < 8 && source < 8 && word == 0x7000 + code * 0x200 + reg * 64 + source
    ensures word % 64 == source && word / 64 % 8 == reg
  {
  }

  lemma EisShape(word: u16, code: nat, reg: nat, source: nat)
    requires code < 4 && reg < 8 && source < 8 && word == 0x7000 + code * 0x200 + reg * 64 + source
    ensures ShapeOf(word) == Eis
  {
    ShapesAre(word);
    hide ShapeOf;
  }

  /** Through a register to memory: the word or byte it points at is combined, or for a move replaced, and nothing
      else changes. */
  lemma ToMemory(s: Space, word: u16, op: nat, source: nat, dest: nat, alu: Alu, r: seq<u16>, psw: u16, a: Answered,
                 b: Answered, r': seq<u16>, psw': u16, ram': seq<u16>)
    requires IsSpace(s) && |r| == 8 && source < 8 && dest < 8 && word == op * 0x1000 + source * 64 + 8 + dest
    requires op in {1, 4, 5, 6, 9, 12, 13, 14} && Completed(s, word, alu, r, psw, a, b, r', psw', ram')
    requires DataPlace(s, r[dest], op in {9, 12, 13}, true).Ram?
    ensures var bytemode := op in {9, 12, 13};
            var pa := DataPlace(s, r[dest], bytemode, true).pa;
            var x := if bytemode then r[source] % 256 else r[source];
            var y := if op in {1, 9} then 0 else Loaded(s.ram, pa, bytemode);
            && r' == r && psw' == WithCodes(psw, alu.codes(word, x, y, r, psw))
            && ram' == Stored(s.ram, pa, bytemode, if op in {1, 9} then x else alu.value(word, x, y, r, psw))
  {
    var bytemode := op in {9, 12, 13};
    WordParts(word, op, source, 8 + dest);
    ShapesAre(word);
    RegisterOperand(s, source, bytemode, r, a);
    PointedAt(s, dest, bytemode, r, b);
    hide Stepped, OperandOf, OperandValue, WithCodes, ShapeOf, DataPlace, Stored, Loaded;
  }

  lemma PointedAt(s: Space, reg: nat, bytemode: bool, r: seq<u16>, b: Answered)
    requires IsSpace(s) && |r| == 8 && reg < 8 && DataPlace(s, r[reg], bytemode, true).Ram?
    ensures OperandOf(s, 8 + reg, bytemode, r, b.words) == Mem(r[reg]) && Stepped(r, 8 + reg, bytemode) == r
    ensures OperandValue(s, 8 + reg, bytemode, r, b) ==
            Loaded(s.ram, DataPlace(s, r[reg], bytemode, true).pa, bytemode)
  {
    assert AddressMode(8 + reg) == 1 && Register(8 + reg) == reg;
    ModesAre(s, 8 + reg, bytemode, r, b.words);
    StepsAre(r, 8 + reg, bytemode);
    assert DataPlace(s, r[reg], bytemode, false) == DataPlace(s, r[reg], bytemode, true) by {
      WritableIsReadable(s.m, r[reg], s.mode, true);
    }
    hide Stepped, OperandOf, Translate, DataPlace;
  }

  /** An immediate operand is the word after the instruction, or its low byte. */
  lemma Immediate(s: Space, bytemode: bool, r: seq<u16>, a: Answered)
    requires IsSpace(s) && |r| == 8 && StreamPlace(s, r[PC]).Ram?
    ensures var word := s.ram[StreamPlace(s, r[PC]).pa / 2];
            OperandValue(s, 23, bytemode, r, a) == if bytemode then word % 256 else word
    ensures Stepped(r, 23, bytemode) == r[PC := Plus(r[PC], 2)]
  {
    assert AddressMode(23) == 2 && Register(23) == PC;
    StepsAre(r, 23, bytemode);
    hide StreamPlace, Plus;
  }

  lemma WordParts(word: u16, op: nat, source: nat, dest: nat)
    requires source < 64 && dest < 64 && word == op * 0x1000 + source * 64 + dest
    ensures word / 64 % 64 == source && word % 64 == dest
  {
  }

  lemma RegisterOperand(s: Space, reg: nat, bytemode: bool, r: seq<u16>, a: Answered)
    requires IsSpace(s) && |r| == 8 && reg < 8
    ensures OperandOf(s, reg, bytemode, r, a.words) == Reg(reg) && Stepped(r, reg, bytemode) == r
    ensures OperandValue(s, reg, bytemode, r, a) == if bytemode then r[reg] % 256 else r[reg]
  {
    NoStep(r, reg, bytemode);
    ModesAre(s, reg, bytemode, r, a.words);
    hide Stepped, OperandOf;
  }

  // ---- the condition codes of an instruction that sets them before its store ---------------------------------

  function OneCodes(s: Space, word: u16, bytemode: bool, x: u16, alu: Alu, r: seq<u16>, psw: u16, b: Answered): Nzvc
    requires IsSpace(s) && |r| == 8
  {
    alu.codes(word, x, OperandValue(s, word % 64, bytemode, r, b), Stepped(r, word % 64, bytemode), psw)
  }

  function DoubleCodes(s: Space, word: u16, bytemode: bool, alu: Alu, r: seq<u16>, psw: u16, a: Answered, b: Answered)
    : Nzvc
    requires IsSpace(s) && |r| == 8
  {
    var source := word / 64 % 64;
    OneCodes(s, word, bytemode, OperandValue(s, source, bytemode, r, a), alu, Stepped(r, source, bytemode), psw, b)
  }

  /** The status word at an abort: only one at the store can find it changed, and then only in the codes of an
      instruction that sets them early. */
  function PswAt(s: Space, stage: Stage, word: u16, alu: Alu, r0: seq<u16>, psw: u16, a: Answered, b: Answered)
    : (psw': u16)
    requires IsSpace(s) && |r0| == 8
    ensures FieldsOf(psw') == FieldsOf(psw).(codes := Codes(psw'))
    ensures Mode(psw') == Mode(psw) && RegSet(psw') == RegSet(psw)
    ensures stage != Storing || !SetsCodesEarly(ShapeOf(word)) ==> psw' == psw
  {
    if stage != Storing || !SetsCodesEarly(ShapeOf(word)) then psw
    else WithCodes(psw, BodyCodes(s, word, alu, AfterFetch(r0), psw, a, b))
  }

  function BodyCodes(s: Space, word: u16, alu: Alu, r: seq<u16>, psw: u16, a: Answered, b: Answered): Nzvc
    requires IsSpace(s) && |r| == 8
  {
    match ShapeOf(word)
    case Double(bytemode, _, _) => DoubleCodes(s, word, bytemode, alu, r, psw, a, b)
    case Single(bytemode, _, _) => OneCodes(s, word, bytemode, 0, alu, r, psw, b)
    case _ => 0
  }

  /** The low byte as a signed number, in sixteen bits. */
  function SignExtended(byte: u16): (w: u16)
    ensures w % 256 == byte % 256
    ensures if byte % 256 < 128 then w < 128 else w >= 0x1_0000 - 128
  {
    var low := byte % 256;
    if low >= 128 then 0xFF00 + low else low
  }
}
