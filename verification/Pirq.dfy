/** Program interrupt requests: levels 1 to 7 in bits 9 to 15 of the request register. */
module Pirq {
  import opened Arith
  import opened Words

  predicate Requested(pirq: u16, level: nat) {
    pirq / Pow2(level + 8) % 2 == 1
  }

  /** Levels 1 to 7 are requested by bits 9 to 15. */
  lemma RequestBits(pirq: u16)
    ensures (Requested(pirq, 1) <==> pirq / 0x200 % 2 == 1) && (Requested(pirq, 2) <==> pirq / 0x400 % 2 == 1)
    ensures (Requested(pirq, 3) <==> pirq / 0x800 % 2 == 1) && (Requested(pirq, 4) <==> pirq / 0x1000 % 2 == 1)
    ensures (Requested(pirq, 5) <==> pirq / 0x2000 % 2 == 1) && (Requested(pirq, 6) <==> pirq / 0x4000 % 2 == 1)
    ensures Requested(pirq, 7) <==> pirq / 0x8000 % 2 == 1
  {
    RequestPowers();
    hide Pow2;
  }

  lemma RequestPowers()
    ensures Pow2(9) == 0x200 && Pow2(10) == 0x400 && Pow2(11) == 0x800 && Pow2(12) == 0x1000
    ensures Pow2(13) == 0x2000 && Pow2(14) == 0x4000 && Pow2(15) == 0x8000
  {
    Pow2Constants();
    assert Pow2(12) == 2 * Pow2(11) == 4 * Pow2(10) == 8 * Pow2(9);
    assert Pow2(15) == 2 * Pow2(14) == 4 * Pow2(13) == 8 * Pow2(12);
  }

  /** The highest requested level, or 0. */
  function HighestUpTo(pirq: u16, level: nat): (h: nat)
    ensures h <= level && (h > 0 ==> Requested(pirq, h))
    ensures forall l :: h < l <= level ==> !Requested(pirq, l)
  {
    if level == 0 || Requested(pirq, level) then level else HighestUpTo(pirq, level - 1)
  }

  method HighestPirLevel(pirq: u16) returns (level: nat)
    ensures level == HighestUpTo(pirq, 7)
  {
    level := 7;
    while level >= 1
      invariant level <= 7
      invariant HighestUpTo(pirq, 7) == HighestUpTo(pirq, level)
    {
      if Requested(pirq, level) {
        return;
      }
      level := level - 1;
    }
  }

  /** What the request register holds after a write: the request bits, with the level they ask for echoed in
      bits 7:5 and 3:1. */
  function Echoed(value: u16): (pirq: u16)
  {
    var req := value / 512 * 512;
    var level := HighestUpTo(req, 7);
    req + level * 32 + level * 2
  }

  lemma RequestBitsOnly(w: u16, v: u16, level: nat)
    requires 1 <= level && w / 512 == v / 512
    ensures Requested(w, level) == Requested(v, level)
  {
    Pow2Constants();
    Pow2Add(9, level - 1);
    assert Pow2(9) == 512;
    DivDiv(w, 512, Pow2(level - 1));
    DivDiv(v, 512, Pow2(level - 1));
  }

  lemma {:induction false} SameRequestsSameLevel(w: u16, v: u16, level: nat)
    requires w / 512 == v / 512
    ensures HighestUpTo(w, level) == HighestUpTo(v, level)
  {
    if level != 0 {
      RequestBitsOnly(w, v, level);
      SameRequestsSameLevel(w, v, level - 1);
    }
  }

  /** Reading the register back shows the level the arbiter will act on: the echo survives a rewrite. */
  lemma EchoIsTheLevel(value: u16)
    ensures var pirq := Echoed(value);
            && pirq / 32 % 8 == HighestUpTo(pirq, 7) == HighestUpTo(value, 7)
            && pirq / 2 % 8 == HighestUpTo(pirq, 7)
            && Echoed(pirq) == pirq
  {
    var q, req := value / 512, value / 512 * 512;
    var level := HighestUpTo(req, 7);
    EchoFields(q, level);
    DivUnique(req, 512, q);
    SameRequestsSameLevel(Echoed(value), req, 7);
    SameRequestsSameLevel(value, req, 7);
    hide HighestUpTo;
  }

  lemma EchoFields(q: nat, level: nat)
    requires level < 8
    ensures var pirq := q * 512 + level * 32 + level * 2;
            pirq / 512 == q && pirq / 32 % 8 == level && pirq / 2 % 8 == level
  {
    var pirq := q * 512 + level * 32 + level * 2;
    DivUnique(pirq, 512, q);
    DivUnique(pirq, 32, q * 16 + level);
    DivUnique(pirq, 2, q * 256 + level * 16 + level);
    ModUnique(q * 16 + level, 8, q * 2, level);
    ModUnique(q * 256 + level * 16 + level, 8, q * 32 + level * 2, level);
  }
}
