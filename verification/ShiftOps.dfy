/** The shift instructions on the register file. */
module ShiftOps {
  import opened Arith
  import opened Words
  import opened Psw
  import opened Cpu
  import opened Recovery
  import opened Operands
  import opened Stages
  import opened Instruction
  import opened Eis

  /** The status word a shift leaves, unless the instruction has already stored one explicitly: N and Z of the value,
      V if the sign ever changed, C the last bit out, and every other field as it was. */
  function ShiftPsw(psw: u16, frozen: bool, x: Shifted): (psw': u16)
    ensures FieldsOf(psw') == FieldsOf(psw).(codes := Codes(psw'))
    ensures frozen ==> psw' == psw
    ensures !frozen ==> HasCodes(psw', x.value < 0, x.value == 0, x.overflow, x.carry)
  {
    if !frozen then
      CodesAre(WithCodes(psw, CodesOf(x.value < 0, x.value == 0, x.overflow, x.carry)),
               x.value < 0, x.value == 0, x.overflow, x.carry);
      WithCodes(psw, CodesOf(x.value < 0, x.value == 0, x.overflow, x.carry))
    else psw
  }

  method SetShiftCodes(cpu: Cpu, x: Shifted)
    requires cpu.Valid()
    modifies cpu`psw
    ensures cpu.Valid() && cpu.psw == ShiftPsw(old(cpu.psw), cpu.ccFrozen, x)
  {
    if !cpu.ccFrozen {
      cpu.psw := WithCodes(cpu.psw, CodesOf(x.value < 0, x.value == 0, x.overflow, x.carry));
    }
  }

  /** The low six bits of the operand. */
  method Count(cpu: Cpu, spec: Spec) returns (o: Outcome<nat>, ghost a: Answered)
    requires cpu.Valid()
    modifies cpu`r, cpu`kt, cpu`mmr1, cpu`stackfile, cpu`cpuerr, cpu`yellowPending, cpu`servicingStackTrap,
             cpu`inTrapPush
    ensures cpu.Valid()
    ensures o.Done? ==> && o.value < 64 && o.value == OperandValue(old(SpaceOf(cpu)), spec, false, old(cpu.r), a) % 64
                        && cpu.r == Stepped(old(cpu.r), spec, false)
  {
    ghost var s := SpaceOf(cpu);
    a := Answered(Answers(0, 0), 0);
    var op;
    ghost var words;
    op, words := DecodeOperand(cpu, spec, false);
    hide OperandOf, ResolutionFaults, Stepped, DataPlace, PointerFaults, ValueOf, ReadFaults;
    if op.Abort? {
      return Abort(op.vec), a;
    }
    ghost var before := SpaceOf(cpu);
    var value := ReadOperand(cpu, op.value, false);
    if value.Abort? {
      return Abort(value.vec), a;
    }
    AlikeRead(s, before, op.value, false, cpu.r, value.value);
    return Done(value.value % 64), Answered(words, value.value);
  }

  /** ASH: the operand's low six bits are the count; the register and the condition codes are those of that many
      single shifts. */
  method OpAsh(cpu: Cpu, word: u16) returns (o: Outcome<nat>, ghost a: Answered)
    requires cpu.Valid()
    modifies cpu
    ensures cpu.Valid()
    ensures o.Done? ==>
              var reg := word / 64 % 8;
              var r := Stepped(old(cpu.r), word % 64, false);
              var count := OperandValue(old(SpaceOf(cpu)), word % 64, false, old(cpu.r), a) % 64;
              var x := Reference(Signed(r[reg], false), count, false);
              && o.value == count
              && cpu.r == r[reg := x.value % 0x1_0000]
              && cpu.psw == ShiftPsw(old(cpu.psw), cpu.ccFrozen, x)
  {
    var reg := word / 64 % 8;
    hide Reference, Stepped, Signed, OperandValue, WithCodes;
    var count;
    count, a := Count(cpu, word % 64);
    if count.Abort? {
      return count, a;
    }
    ghost var before := cpu.r[reg];
    var result, v, c := Ash(cpu.r[reg], count.value);
    cpu.r := cpu.r[reg := result];
    SetShiftCodes(cpu, Shifted(Signed(result, false), c, v));
    ResidueOfSigned(result);
    return count, a;
  }

  lemma ResidueOfSigned(w: u16)
    ensures Signed(w, false) % 0x1_0000 == w
  {
  }

  /** ASHC on an even register shifts the pair as one 32-bit number. On an odd one the high word is taken from
      and the low word stored to the one register. */
  method OpAshc(cpu: Cpu, word: u16) returns (o: Outcome<nat>, ghost a: Answered)
    requires cpu.Valid()
    modifies cpu
    ensures cpu.Valid()
    ensures o.Done? ==>
              var reg := word / 64 % 8;
              var pair := if reg % 2 == 1 then reg else reg + 1;
              var r := Stepped(old(cpu.r), word % 64, false);
              var src := Signed(PairOf(r[reg], r[pair]), true);
              var count := OperandValue(old(SpaceOf(cpu)), word % 64, false, old(cpu.r), a) % 64;
              var x := Reference(src, count, true);
              && o.value == count
              && cpu.r == r[reg := x.value % TWO_32 / 0x1_0000][pair := x.value % 0x1_0000]
              && cpu.psw == ShiftPsw(old(cpu.psw), cpu.ccFrozen, x)
  {
    var reg := word / 64 % 8;
    var pair := if reg % 2 == 1 then reg else reg + 1;
    hide Reference, Stepped, Signed, OperandValue, WithCodes;
    var count;
    count, a := Count(cpu, word % 64);
    if count.Abort? {
      return count, a;
    }
    var high, low, v, c := Ashc(cpu.r[reg], cpu.r[pair], count.value);
    cpu.r := cpu.r[reg := high];
    cpu.r := cpu.r[pair := low];
    SetShiftCodes(cpu, Shifted(Signed(PairOf(high, low), true), c, v));
    PairOfSigned(high, low);
    return count, a;
  }

  lemma PairOfSigned(high: u16, low: u16)
    ensures var x := Signed(PairOf(high, low), true);
            x % TWO_32 / 0x1_0000 == high && x % 0x1_0000 == low
  {
    var w := PairOf(high, low);
    WrapTwice(w);
    ModUnique(w, 0x1_0000, high, low);
    var k := SignedDiffers(w, true);
    assert Signed(w, true) == w - k * TWO_32;
    ModUnique(Signed(w, true), TWO_32, 0 - k, w);
    hide Signed;
  }
}
