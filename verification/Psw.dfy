/** Fields of the processor status word. */
module Psw {
  import opened Arith
  import opened Words

  function RegSet(psw: u16): (s: nat)
    ensures s < 2
  {
    psw / 0x800 % 2
  }

  function Mode(psw: u16): (m: nat)
    ensures m < 4
  {
    psw / 0x4000
  }

  function PreviousMode(psw: u16): (m: nat)
    ensures m < 4
  {
    psw / 0x1000 % 4
  }

  function Priority(psw: u16): (p: nat)
    ensures p < 8
  {
    psw / 32 % 8
  }

  predicate Tracing(psw: u16) { psw / 16 % 2 == 1 }

  /** N, Z, V and C as a number. */
  function Codes(psw: u16): (nzvc: nat)
    ensures nzvc < 16
  {
    psw % 16
  }

  /** Bits 10 to 8, which the 11/70 does not hold. */
  function Unheld(psw: u16): (u: nat)
    ensures u < 8
  {
    psw / 0x100 % 8
  }

  predicate Masked(psw: u16) { Unheld(psw) == 0 }

  // ---- the whole word ----------------------------------------------------------------------------------------------

  datatype Fields = Fields(mode: nat, previous: nat, regSet: nat, unheld: nat, priority: nat, trace: bool, codes: nat)

  function FieldsOf(psw: u16): Fields {
    Fields(Mode(psw), PreviousMode(psw), RegSet(psw), Unheld(psw), Priority(psw), Tracing(psw), Codes(psw))
  }

  /** The layout: mode in bits 15:14, previous mode 13:12, register set 11, priority 7:5, trace 4, codes 3:0. */
  function Word(f: Fields): nat {
    f.mode * 0x4000 + f.previous * 0x1000 + f.regSet * 0x800 + f.unheld * 0x100 + f.priority * 0x20
    + (if f.trace then 0x10 else 0) + f.codes
  }

  predicate InRange(f: Fields) {
    f.mode < 4 && f.previous < 4 && f.regSet < 2 && f.unheld < 8 && f.priority < 8 && f.codes < 16
  }

  /** A status word is its fields and nothing else. */
  lemma WordOfFields(psw: u16)
    ensures Word(FieldsOf(psw)) == psw && InRange(FieldsOf(psw))
  {
    Split(psw, 16);
    Split(psw / 16, 2);
    Split(psw / 32, 8);
    Split(psw / 0x100, 8);
    Split(psw / 0x800, 2);
    Split(psw / 0x1000, 4);
    Stages(psw);
  }

  lemma Split(n: nat, d: nat)
    requires d > 0
    ensures n == n / d * d + n % d
  {
  }

  lemma Stages(psw: u16)
    ensures psw / 16 / 2 == psw / 32 && psw / 32 / 8 == psw / 0x100 && psw / 0x100 / 8 == psw / 0x800
    ensures psw / 0x800 / 2 == psw / 0x1000 && psw / 0x1000 / 4 == psw / 0x4000
  {
    DivDiv(psw, 16, 2);
    DivDiv(psw, 32, 8);
    DivDiv(psw, 0x100, 8);
    DivDiv(psw, 0x800, 2);
    DivDiv(psw, 0x1000, 4);
  }

  /** Any values of the fields make a word that has them. */
  lemma FieldsOfWord(f: Fields)
    requires InRange(f)
    ensures Word(f) < 0x1_0000 && FieldsOf(Word(f)) == f
  {
    var t := if f.trace then 1 else 0;
    var w := Word(f);
    var a5 := f.mode * 4 + f.previous;
    var a4 := a5 * 2 + f.regSet;
    var a3 := a4 * 8 + f.unheld;
    var a2 := a3 * 8 + f.priority;
    var a1 := a2 * 2 + t;
    ModUnique(w, 16, a1, f.codes);
    ModUnique(a1, 2, a2, t);
    ModUnique(a2, 8, a3, f.priority);
    ModUnique(a3, 8, a4, f.unheld);
    ModUnique(a4, 2, a5, f.regSet);
    ModUnique(a5, 4, f.mode, f.previous);
    Stages(w);
  }

  // ---- the ways the processor changes it ---------------------------------------------------------------------------

  /** The 11/70 holds every bit but 10 to 8. */
  function MaskPsw(psw: u16): (r: u16)
    ensures FieldsOf(r) == FieldsOf(psw).(unheld := 0) && Masked(r)
    ensures Masked(psw) ==> r == psw
  {
    WordOfFields(psw);
    FieldsOfWord(FieldsOf(psw).(unheld := 0));
    MaskIs(psw);
    psw / 0x800 * 0x800 + psw % 0x100
  }

  lemma MaskIs(psw: u16)
    ensures psw / 0x800 * 0x800 + psw % 0x100 == psw - Unheld(psw) * 0x100
  {
    Split(psw, 0x100);
    Split(psw / 0x100, 8);
    DivDiv(psw, 0x100, 8);
  }

  /** Recording the previous mode changes no other field. */
  function WithPreviousMode(psw: u16, m: nat): (r: u16)
    requires m < 4
    ensures FieldsOf(r) == FieldsOf(psw).(previous := m)
  {
    WordOfFields(psw);
    FieldsOfWord(FieldsOf(psw).(previous := m));
    Split(psw, 0x1000);
    Split(psw / 0x1000, 4);
    DivDiv(psw, 0x1000, 4);
    psw / 0x4000 * 0x4000 + m * 0x1000 + psw % 0x1000
  }

  /** A value stored to the status word, under the trace bit already there. */
  function WithTraceOf(value: u16, psw: u16): (r: u16)
    ensures FieldsOf(r) == FieldsOf(value).(trace := Tracing(psw))
  {
    WordOfFields(value);
    FieldsOfWord(FieldsOf(value).(trace := Tracing(psw)));
    value - value / 16 % 2 * 16 + psw / 16 % 2 * 16
  }

  /** Replacing the condition codes leaves every other field alone. */
  function WithCodes(psw: u16, nzvc: nat): (r: u16)
    requires nzvc < 16
    ensures FieldsOf(r) == FieldsOf(psw).(codes := nzvc)
  {
    WordOfFields(psw);
    FieldsOfWord(FieldsOf(psw).(codes := nzvc));
    Split(psw, 16);
    psw / 16 * 16 + nzvc
  }

  // ---- the condition codes -----------------------------------------------------------------------------------------

  predicate NegativeCode(psw: u16) { psw / 8 % 2 == 1 }

  predicate ZeroCode(psw: u16) { psw / 4 % 2 == 1 }

  predicate OverflowCode(psw: u16) { psw / 2 % 2 == 1 }

  predicate CarryCode(psw: u16) { psw % 2 == 1 }

  /** The four codes are these. */
  predicate HasCodes(psw: u16, n: bool, z: bool, v: bool, c: bool) {
    (NegativeCode(psw) <==> n) && (ZeroCode(psw) <==> z) && (OverflowCode(psw) <==> v) && (CarryCode(psw) <==> c)
  }

  function CodesOf(n: bool, z: bool, v: bool, c: bool): (nzvc: nat)
    ensures nzvc < 16
  {
    (if n then 8 else 0) + (if z then 4 else 0) + (if v then 2 else 0) + (if c then 1 else 0)
  }

  lemma CodesAre(psw: u16, n: bool, z: bool, v: bool, c: bool)
    requires Codes(psw) == CodesOf(n, z, v, c)
    ensures HasCodes(psw, n, z, v, c)
  {
    Split(psw, 16);
    CodeBits(psw, psw / 16, psw % 16);
  }

  lemma CodeBits(w: nat, q: nat, k: nat)
    requires w == q * 16 + k && k < 16
    ensures w / 8 % 2 == k / 8 && w / 4 % 2 == k / 4 % 2 && w / 2 % 2 == k / 2 % 2 && w % 2 == k % 2
  {
    ModUnique(w, 8, 2 * q + k / 8, k % 8);
    ModUnique(2 * q + k / 8, 2, q, k / 8);
    ModUnique(w, 4, 4 * q + k / 4, k % 4);
    ModUnique(4 * q + k / 4, 2, 2 * q + k / 4 / 2, k / 4 % 2);
    ModUnique(w, 2, 8 * q + k / 2, k % 2);
    ModUnique(8 * q + k / 2, 2, 4 * q + k / 2 / 2, k / 2 % 2);
  }
}
