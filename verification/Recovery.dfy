/** The MMR1 log: one byte for each register an instruction has stepped, so that an abort handler can put the
    registers back. */
module Recovery {
  import opened Arith
  import opened Words
  import opened Kt11
  import opened Cpu

  // ---- register steps of an operand specifier -----------------------------------------------------------

  type Spec = x: int | 0 <= x < 64

  function AddressMode(spec: Spec): (m: nat)
    ensures m < 8
  {
    spec / 8
  }

  function Register(spec: Spec): (reg: nat)
    ensures reg < 8
  {
    spec % 8
  }

  /** Byte operations step by one, except on SP and PC, which stay word-aligned. */
  function StepSize(reg: nat, bytemode: bool): (n: nat)
    ensures 1 <= n <= 2
  {
    if bytemode && reg < SP then 1 else 2
  }

  /** How far resolving an operand moves its register; the deferred modes step over a word pointer. */
  function Delta(spec: Spec, bytemode: bool): (d: int)
    ensures -2 <= d <= 2
  {
    match AddressMode(spec)
    case 2 => StepSize(Register(spec), bytemode)
    case 3 => 2
    case 4 => 0 - StepSize(Register(spec), bytemode)
    case 5 => -2
    case _ => 0
  }

  /** The registers once an operand is resolved: its own step, or the PC past an index word. */
  function Stepped(r: seq<u16>, spec: Spec, bytemode: bool): (r': seq<u16>)
    requires |r| == 8
    ensures |r'| == 8
  {
    if AddressMode(spec) >= 6 then r[PC := Plus(r[PC], 2)]
    else r[Register(spec) := Plus(r[Register(spec)], Delta(spec, bytemode))]
  }

  /** A specifier is its mode and its register. */
  lemma SpecifierFields(spec: Spec)
    ensures spec == AddressMode(spec) * 8 + Register(spec)
  {
  }

  /** How far each mode moves its register: autoincrement and autodecrement by the size of the operand, a byte on SP
      and PC counting as a word; their deferred forms by a word; the rest not at all, and an index word moves the PC. */
  lemma StepsAre(r: seq<u16>, spec: Spec, bytemode: bool)
    requires |r| == 8
    ensures var reg, r' := Register(spec), Stepped(r, spec, bytemode);
            var n := if bytemode && reg < 6 then 1 else 2;
            match AddressMode(spec)
            case 2 => r' == r[reg := Plus(r[reg], n)]
            case 3 => r' == r[reg := Plus(r[reg], 2)]
            case 4 => r' == r[reg := Plus(r[reg], 0 - n)]
            case 5 => r' == r[reg := Plus(r[reg], -2)]
            case 6 => r' == r[7 := Plus(r[7], 2)]
            case 7 => r' == r[7 := Plus(r[7], 2)]
            case _ => r' == r
  {
  }

  /** So the stack pointer and the PC stay word-aligned, whatever is addressed at whatever width. */
  lemma PointersStayEven(r: seq<u16>, spec: Spec, bytemode: bool)
    requires |r| == 8 && r[SP] % 2 == 0 && r[PC] % 2 == 0
    ensures var r' := Stepped(r, spec, bytemode); r'[SP] % 2 == 0 && r'[PC] % 2 == 0
  {
    var reg, d := Register(spec), Delta(spec, bytemode);
    EvenStep(r[PC], 2);
    if reg >= SP {
      assert d in {-2, 0, 2};
      EvenStep(r[reg], d);
    }
    hide Plus, Delta;
  }

  lemma EvenStep(x: u16, d: int)
    requires x % 2 == 0 && d in {-2, 0, 2}
    ensures Plus(x, d) % 2 == 0
  {
    Wrap(x + d, 0x1_0000);
  }

  // ---- the log ------------------------------------------------------------------------------------------

  /** Bitwise or of two numbers of the given width. */
  function BitOr(a: nat, b: nat, bits: nat): nat {
    if bits == 0 then 0
    else BitOr(a / 2, b / 2, bits - 1) * 2 + if a % 2 == 1 || b % 2 == 1 then 1 else 0
  }

  /** Each bit of it is set if and only if that bit of either is. */
  lemma {:induction false} OrBits(a: nat, b: nat, bits: nat, j: nat)
    requires j < bits
    ensures BitOr(a, b, bits) / Pow2(j) % 2 == 1 <==> a / Pow2(j) % 2 == 1 || b / Pow2(j) % 2 == 1
  {
    var rest := BitOr(a / 2, b / 2, bits - 1);
    var w := BitOr(a, b, bits);
    assert w / 2 == rest && w % 2 == if a % 2 == 1 || b % 2 == 1 then 1 else 0;
    if j > 0 {
      OrBits(a / 2, b / 2, bits - 1, j - 1);
      hide BitOr;
      DivDiv(a, 2, Pow2(j - 1));
      DivDiv(b, 2, Pow2(j - 1));
      DivDiv(w, 2, Pow2(j - 1));
    }
  }

  lemma {:induction false} OrWithZero(b: nat, bits: nat)
    requires b < Pow2(bits)
    ensures BitOr(0, b, bits) == b
  {
    if bits != 0 {
      OrWithZero(b / 2, bits - 1);
    }
  }

  /** A modification as MMR1 records it: a 5-bit signed delta above the register number. */
  function Encoded(reg: nat, delta: int): (enc: nat)
    requires reg < 8 && -16 <= delta < 16
    ensures enc < 256 && enc % 8 == reg && enc / 8 == if delta < 0 then delta + 32 else delta
  {
    delta % 32 * 8 + reg
  }

  /** The first modification goes in the low byte, the next above it. */
  function Tracked(mmr1: u16, enc: nat): u16
    requires enc < 256
  {
    if mmr1 == 0 then enc else BitOr(mmr1 / 256, enc, 8) % 256 * 256 + mmr1 % 256
  }

  /** mmr1_track: the PC is never logged, and nothing is once MMR0 is frozen. */
  function LogAfter(mmr1: u16, mmr0: u16, spec: Spec, bytemode: bool): u16 {
    if Frozen(mmr0) || Register(spec) == PC || Delta(spec, bytemode) == 0 then mmr1
    else Tracked(mmr1, Encoded(Register(spec), Delta(spec, bytemode)))
  }

  // ---- what an abort handler does with it -----------------------------------------------------------------

  function LoggedReg(b: nat): (reg: nat)
    ensures reg < 8
  {
    b % 8
  }

  function LoggedDelta(b: nat): int {
    var d := b / 8 % 32;
    if d >= 16 then d - 32 else d
  }

  function Undo(r: seq<u16>, b: nat): (r': seq<u16>)
    requires |r| == 8
    ensures |r'| == 8
  {
    r[LoggedReg(b) := Plus(r[LoggedReg(b)], 0 - LoggedDelta(b))]
  }

  function Rewound(r: seq<u16>, mmr1: u16): (r': seq<u16>)
    requires |r| == 8
    ensures |r'| == 8
  {
    Undo(Undo(r, mmr1 / 256), mmr1 % 256)
  }

  /** Take back the logged steps and restart at the logged instruction. */
  function Recovered(r: seq<u16>, mmr1: u16, mmr2: u16): seq<u16>
    requires |r| == 8
  {
    Rewound(r, mmr1)[PC := mmr2]
  }

  lemma DecodeEncoded(reg: nat, delta: int)
    requires reg < 8 && -16 <= delta < 16
    ensures LoggedReg(Encoded(reg, delta)) == reg && LoggedDelta(Encoded(reg, delta)) == delta
    ensures delta != 0 ==> Encoded(reg, delta) != 0
  {
  }

  lemma PlusUndone(x: u16, d: int)
    requires -16 <= d < 16
    ensures Plus(Plus(x, d), 0 - d) == x
  {
  }

  lemma UndoNothing(r: seq<u16>)
    requires |r| == 8
    ensures Undo(r, 0) == r
  {
  }

  /** Up to two steps can be logged, and rewinding takes back whichever were, in either order and even when
      both moved the same register. */
  lemma LogRewinds(r: seq<u16>, mmr1: u16, reg: nat, delta: int)
    requires |r| == 8 && mmr1 < 256 && reg < 8 && -16 <= delta < 16 && delta != 0
    ensures Rewound(r[reg := Plus(r[reg], delta)], Tracked(mmr1, Encoded(reg, delta))) == Rewound(r, mmr1)
  {
    var enc := Encoded(reg, delta);
    var r' := r[reg := Plus(r[reg], delta)];
    UndoStep(r, reg, delta);
    UndoNothing(r);
    UndoNothing(r');
    TrackedBytes(mmr1, reg, delta);
    hide Undo, Encoded, Tracked, Plus;
  }

  lemma UndoStep(r: seq<u16>, reg: nat, delta: int)
    requires |r| == 8 && reg < 8 && -16 <= delta < 16
    ensures Undo(r[reg := Plus(r[reg], delta)], Encoded(reg, delta)) == r
  {
    DecodeEncoded(reg, delta);
    PlusUndone(r[reg], delta);
    hide Plus, Encoded, LoggedReg, LoggedDelta;
  }

  /** The bytes of the log after tracking a step on a log with a free byte. */
  lemma TrackedBytes(mmr1: u16, reg: nat, delta: int)
    requires mmr1 < 256 && reg < 8 && -16 <= delta < 16 && delta != 0
    ensures var log, enc := Tracked(mmr1, Encoded(reg, delta)), Encoded(reg, delta);
            if mmr1 == 0 then log / 256 == 0 && log % 256 == enc else log / 256 == enc && log % 256 == mmr1
    ensures mmr1 / 256 == 0 && mmr1 % 256 == mmr1
  {
    var enc := Encoded(reg, delta);
    DecodeEncoded(reg, delta);
    hide Encoded;
    TwoBytes(0, enc);
    TwoBytes(0, mmr1);
    if mmr1 != 0 {
      SecondTracked(mmr1, enc);
      TwoBytes(enc, mmr1);
    }
  }

  lemma TwoBytes(high: nat, low: nat)
    requires low < 256
    ensures (high * 256 + low) / 256 == high && (high * 256 + low) % 256 == low
  {
  }

  lemma SecondTracked(mmr1: u16, enc: nat)
    requires 0 < mmr1 < 256 && enc < 256
    ensures Tracked(mmr1, enc) == enc * 256 + mmr1
  {
    assert Pow2(8) == 256;
    OrWithZero(enc, 8);
    TwoBytes(0, mmr1);
    TwoBytes(0, enc);
    hide BitOr, Pow2;
  }

  /** The log accounts for how far R0 to R6 have moved from r0. */
  ghost predicate Accounts(r: seq<u16>, mmr1: u16, r0: seq<u16>) {
    |r| == 8 && |r0| == 8 && Rewound(r, mmr1)[..PC] == r0[..PC]
  }

  /** With MMR2 holding the instruction's address, recovery is exact just when the log accounts for R0 to R6. */
  lemma RecoveredIff(r: seq<u16>, mmr1: u16, r0: seq<u16>)
    requires |r| == 8 && |r0| == 8
    ensures Recovered(r, mmr1, r0[PC]) == r0 <==> Accounts(r, mmr1, r0)
  {
    var w := Rewound(r, mmr1);
    assert w[PC := r0[PC]][..PC] == w[..PC];
    assert w[PC := r0[PC]] == w[..PC] + [r0[PC]];
    assert r0 == r0[..PC] + [r0[PC]];
    hide Rewound;
  }

  /** Moving the PC is invisible to the log. */
  lemma PcUnlogged(r: seq<u16>, mmr1: u16, r0: seq<u16>, v: u16)
    requires |r| == 8 && |r0| == 8 && Accounts(r, mmr1, r0)
    ensures Accounts(r[PC := v], mmr1, r0)
  {
    UndoElsewhere(r, mmr1 / 256, v);
    UndoElsewhere(Undo(r, mmr1 / 256), mmr1 % 256, Undo(r[PC := v], mmr1 / 256)[PC]);
    hide Undo;
  }

  /** The log speaks of R0 to R6 only. */
  lemma AccountsSame(r: seq<u16>, r': seq<u16>, mmr1: u16, r0: seq<u16>)
    requires |r| == 8 && |r'| == 8 && |r0| == 8 && r[..PC] == r'[..PC]
    ensures Accounts(r, mmr1, r0) == Accounts(r', mmr1, r0)
  {
    assert r == r[..PC] + [r[PC]] && r' == r'[..PC] + [r'[PC]];
    assert r' == r[PC := r'[PC]] && r == r'[PC := r[PC]];
    if Accounts(r, mmr1, r0) {
      PcUnlogged(r, mmr1, r0, r'[PC]);
    } else if Accounts(r', mmr1, r0) {
      PcUnlogged(r', mmr1, r0, r[PC]);
    }
  }

  /** Recovery reads only R0 to R6: the PC of an abort is replaced, not rewound. */
  lemma RecoverySame(r: seq<u16>, r': seq<u16>, mmr1: u16, mmr2: u16)
    requires |r| == 8 && |r'| == 8 && r[..PC] == r'[..PC]
    ensures Recovered(r, mmr1, mmr2) == Recovered(r', mmr1, mmr2)
  {
    var r0 := Recovered(r, mmr1, mmr2);
    RecoveredIff(r, mmr1, r0);
    RecoveredIff(r', mmr1, r0);
    AccountsSame(r, r', mmr1, r0);
    hide Rewound, Accounts;
  }

  lemma UndoElsewhere(r: seq<u16>, b: nat, v: u16)
    requires |r| == 8
    ensures Undo(r[PC := v], b)[..PC] == Undo(r, b)[..PC]
    ensures Undo(r[PC := v], b) == Undo(r, b)[PC := Undo(r[PC := v], b)[PC]]
  {
    hide Plus;
  }

  /** Resolving one operand keeps the log exact. */
  lemma StepAccounts(r: seq<u16>, mmr1: u16, mmr0: u16, r0: seq<u16>, spec: Spec, bytemode: bool)
    requires !Frozen(mmr0) && mmr1 < 256 && Accounts(r, mmr1, r0)
    ensures Accounts(Stepped(r, spec, bytemode), LogAfter(mmr1, mmr0, spec, bytemode), r0)
    ensures mmr1 == 0 ==> LogAfter(mmr1, mmr0, spec, bytemode) < 256
  {
    var reg, d := Register(spec), Delta(spec, bytemode);
    if AddressMode(spec) >= 6 {
      PcUnlogged(r, mmr1, r0, Plus(r[PC], 2));
    } else if reg == PC {
      PcUnlogged(r, mmr1, r0, Plus(r[PC], d));
    } else if d == 0 {
      assert Plus(r[reg], 0) == r[reg];
      assert r[reg := r[reg]] == r;
    } else {
      LogRewinds(r, mmr1, reg, d);
      hide Rewound, Tracked, Delta, Encoded;
    }
  }

  /** A register stepped and not logged stays wrong after recovery. */
  lemma UnloggedStepLost(r: seq<u16>, mmr1: u16, r0: seq<u16>, reg: nat)
    requires reg < PC && mmr1 < 256 && Accounts(r, mmr1, r0)
    ensures !Accounts(r[reg := Plus(r[reg], -2)], mmr1, r0)
  {
    var r' := r[reg := Plus(r[reg], -2)];
    UndoNothing(r);
    UndoNothing(r');
    assert mmr1 / 256 == 0 && mmr1 % 256 == mmr1;
    UndoSeparates(r, mmr1, reg);
    hide Undo, Plus;
    assert Rewound(r', mmr1) == Undo(r', mmr1) && Rewound(r, mmr1) == Undo(r, mmr1);
    assert Undo(r', mmr1)[..PC][reg] != Undo(r, mmr1)[..PC][reg];
  }

  lemma UndoSeparates(r: seq<u16>, b: nat, reg: nat)
    requires |r| == 8 && reg < PC
    ensures Undo(r[reg := Plus(r[reg], -2)], b)[reg] != Undo(r, b)[reg]
  {
    var d := 0 - LoggedDelta(b);
    var x := r[reg];
    PlusDistinct(x, d);
    hide LoggedDelta, Plus;
  }

  lemma PlusDistinct(x: u16, d: int)
    requires -16 <= d <= 16
    ensures Plus(x, -2) != x && Plus(Plus(x, -2), d) != Plus(x, d)
  {
  }
}
