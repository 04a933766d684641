/** The bit operations of the generated code, on words of the source's width, each with what it
    does to the number that a word stands for. Callers see the numbers only. */
module Bits {

  /** The number that a word stands for. */
  function Value(w: bv64): (n: nat)
    ensures n < 0x1_0000_0000_0000_0000
  {
    w as nat
  }

  // ---------------------------------------------------------------- putting a word together

  lemma Join3(q: bv61, r: bv3)
    ensures Value(((q as bv64) << 3) | (r as bv64)) == q as nat * 8 + r as nat
  {
  }

  lemma Widen3(q: bv61, r: bv3)
    ensures Value(q as bv64) == q as nat && Value(r as bv64) == r as nat < 8
  {
  }

  lemma Parts3(w: bv64) returns (q: bv61, r: bv3)
    ensures w == (((q as bv64) << 3) | (r as bv64)) && w >> 3 == q as bv64 && w & 7 == r as bv64
  {
    q, r := (w >> 3) as bv61, (w & 7) as bv3;
  }

  lemma Join7(q: bv57, r: bv7)
    ensures Value(((q as bv64) << 7) | (r as bv64)) == q as nat * 128 + r as nat
  {
  }

  lemma Widen7(q: bv57, r: bv7)
    ensures Value(q as bv64) == q as nat && Value(r as bv64) == r as nat < 128
  {
  }

  lemma Parts7(w: bv64) returns (q: bv57, r: bv7)
    ensures w == (((q as bv64) << 7) | (r as bv64)) && w >> 7 == q as bv64 && w & 0x7f == r as bv64
  {
    q, r := (w >> 7) as bv57, (w & 0x7f) as bv7;
  }

  lemma Join1(q: bv63, r: bv1)
    ensures Value(((q as bv64) << 1) | (r as bv64)) == q as nat * 2 + r as nat
    ensures Value(((q as bv64) << 1) | (1 as bv1 as bv64)) == q as nat * 2 + 1
    ensures Value(r as bv64) == r as nat < 2
  {
  }

  lemma Parts1(x: bv64) returns (q: bv63, r: bv1)
    ensures x == (((q as bv64) << 1) | (r as bv64)) && x & 1 == r as bv64
    ensures x | 1 == (((q as bv64) << 1) | (1 as bv1 as bv64))
  {
    q, r := (x >> 1) as bv63, (x & 1) as bv1;
  }

  lemma DivMod(b: nat, a: nat, q: nat, r: nat)
    requires b in {2, 8, 128} && a == q * b + r && r < b
    ensures a / b == q && a % b == r
  {
  }

  // ---------------------------------------------------------------- the operations

  /** `wire >> 3`. */
  function TagNumber(wire: bv64): (number: nat)
    ensures number == Value(wire) / 8
  {
    TagSplits(wire);
    Value(wire >> 3)
  }

  /** `wire & 0x7`. */
  function TagType(wire: bv64): (wireType: nat)
    ensures wireType == Value(wire) % 8
  {
    TagSplits(wire);
    Value(wire & 7)
  }

  lemma TagSplits(w: bv64)
    ensures Value(w >> 3) == Value(w) / 8 && Value(w & 7) == Value(w) % 8
  {
    hide Value;
    var q, r := Parts3(w);
    Join3(q, r);
    Widen3(q, r);
    DivMod(8, Value(w), q as nat, r as nat);
  }

  /** `v >> 7`. */
  function Shorten(v: bv64): (rest: bv64)
    ensures Value(rest) == Value(v) / 128
  {
    WordSplits(v);
    v >> 7
  }

  /** `v & 0x7f`. */
  function Low(v: bv64): (x: bv64)
    ensures Value(x) == Value(v) % 128
  {
    WordSplits(v);
    v & 0x7f
  }

  lemma WordSplits(w: bv64)
    ensures Value(w >> 7) == Value(w) / 128 && Value(w & 0x7f) == Value(w) % 128
  {
    hide Value;
    var q, r := Parts7(w);
    Join7(q, r);
    Widen7(q, r);
    DivMod(128, Value(w), q as nat, r as nat);
  }

  /** `uint8(v & 0x7f | 0x80)`: the low septet with the continuation bit. */
  function Emit(v: bv64): (b: int)
    ensures b == Value(v) % 128 + 128
  {
    Emitted(v);
    ((Low(v) | 0x80) as bv8) as int
  }

  lemma Emitted(v: bv64)
    ensures (((v & 0x7f) | 0x80) as bv8) as int == Value(v & 0x7f) + 128
  {
  }

  /** `v >= 1<<7`. */
  predicate GoesOn(v: bv64)
    ensures GoesOn(v) <==> Value(v) >= 128
  {
    LastSeptet(v);
    v >= 1 << 7
  }

  /** `uint8(v)` of a word that fits a septet. */
  function LastByte(v: bv64): (b: int)
    requires !GoesOn(v)
    ensures b == Value(v) < 128
  {
    LastSeptet(v);
    (v as bv8) as int
  }

  lemma LastSeptet(v: bv64)
    ensures v < 0x80 <==> Value(v) < 128
    ensures v < 0x80 ==> (v as bv8) as int == Value(v)
  {
  }

  /** `x | 1`: the word made odd. */
  function MadeOdd(x: bv64): (y: bv64)
    ensures Value(y) == if Value(x) % 2 == 0 then Value(x) + 1 else Value(x)
  {
    LowBit(x);
    x | 1
  }

  lemma LowBit(x: bv64)
    ensures Value(x | 1) == if Value(x) % 2 == 0 then Value(x) + 1 else Value(x)
    ensures Value(x & 1) == Value(x) % 2
  {
    hide Value;
    var q, r := Parts1(x);
    Join1(q, r);
    DivMod(2, Value(x), q as nat, r as nat);
  }

  /** `v != 0`. */
  predicate IsSet(v: bv64)
    ensures IsSet(v) <==> Value(v) != 0
  {
    v != 0
  }

  // ---------------------------------------------------------------- numbers as words

  /** `uint64(n)`. */
  function Word(n: nat): (w: bv64)
    requires n < 0x1_0000_0000_0000_0000
    ensures Value(w) == n
  {
    WordStandsFor(n);
    n as bv64
  }

  lemma WordStandsFor(n: nat)
    requires n < 0x1_0000_0000_0000_0000
    ensures Value(n as bv64) == n
  {
    hide Value;
    var w := WordOf(n);
    SameWord(n, w);
  }

  lemma SameWord(n: nat, w: bv64)
    requires Value(w) == n
    ensures n as bv64 == w
  {
    Reread(w);
  }

  lemma Reread(w: bv64)
    ensures Value(w) as bv64 == w
  {
  }

  lemma {:induction false} WordOf(v: nat) returns (w: bv64)
    requires v < 0x1_0000_0000_0000_0000
    ensures Value(w) == v
    decreases v
  {
    if v == 0 {
      w := 0;
    } else {
      var u := WordOf(v / 2);
      hide Value;
      var q := Narrow(u);
      Join1(q, 0);
      w := if v % 2 == 0 then ((q as bv64) << 1) | (0 as bv1 as bv64) else ((q as bv64) << 1) | (1 as bv1 as bv64);
      Bit0();
    }
  }

  lemma Narrow(u: bv64) returns (q: bv63)
    requires Value(u) < 0x8000_0000_0000_0000
    ensures q as nat == Value(u)
  {
    Below63(u);
    q := u as bv63;
  }

  lemma Below63(u: bv64)
    requires Value(u) < 0x8000_0000_0000_0000
    ensures u < 1 << 63
  {
  }

  lemma Bit0()
    ensures (0 as bv1) as nat == 0
  {
  }

  // ---------------------------------------------------------------- collecting septets

  /** `uint64(b) & 0x7F`: the byte without its continuation bit. */
  function Septet(b: int): (x: bv64)
    requires 0 <= b < 256
    ensures Value(x) == b % 128 && x < 0x80
  {
    LastSeptet(Low(Word(b)));
    Low(Word(b))
  }

  /** `word | x << shift`. */
  function Or(word: bv64, x: bv64, shift: bv64): bv64
    requires shift < 64
  {
    word | (x << shift)
  }

  /** The shift of the decode loop after `k` bytes. */
  function Shift(k: nat): bv64
    requires k <= 10
  {
    match k
    case 0 => 0 case 1 => 7 case 2 => 14 case 3 => 21 case 4 => 28 case 5 => 35
    case 6 => 42 case 7 => 49 case 8 => 56 case 9 => 63 case 10 => 70
  }

  lemma NextShift(k: nat)
    requires k <= 9
    ensures Shift(k) + 7 == Shift(k + 1)
  {
  }

  /** The loop's overflow test `shift >= 64` fires after ten bytes. */
  lemma ShiftWithin(k: nat)
    requires k <= 10
    ensures Shift(k) >= 64 <==> k == 10
  {
  }

  lemma ShiftRange(k: nat)
    requires 0 < k <= 9
    ensures 7 <= Shift(k) <= 63 && (k <= 8 ==> Shift(k) <= 56)
    ensures Shift(k - 1) == Shift(k) - 7
  {
  }

  /** `2^(7k)`, the weight of a septet. */
  function Weight(k: nat): (p: nat)
    ensures p > 0
  {
    if k == 0 then 1 else 128 * Weight(k - 1)
  }

  lemma WeightNine()
    ensures Weight(9) == 0x8000_0000_0000_0000
  {
    assert Weight(3) == 0x20_0000 by {
      assert Weight(1) == 128 && Weight(2) == 128 * Weight(1);
    }
    assert Weight(6) == 0x20_0000 * 0x20_0000 by {
      assert Weight(4) == 128 * Weight(3) && Weight(5) == 128 * Weight(4);
    }
    assert Weight(7) == 128 * Weight(6) && Weight(8) == 128 * Weight(7);
  }

  lemma OrFirst(word: bv64, x: bv64)
    requires Value(word) < 1
    ensures Or(word, x, Shift(0)) == x
  {
    assert word == 0;
  }

  /** Seven bits lower, the rest of a word takes in a septet as the whole word does, and the
      lowest septet stays. */
  lemma Unshift(w: bv64, x: bv64, s: bv64)
    requires 7 <= s && ((s <= 56 && x < 0x80) || (s <= 63 && x <= 1))
    ensures Shorten(Or(w, x, s)) == Or(Shorten(w), x, s - 7) && Low(Or(w, x, s)) == Low(w)
  {
    hide Value;
  }

  /** Below the shift the word is free of the septet, so `word |= x << shift` adds it. */
  lemma {:induction false} OrAdds(word: bv64, x: bv64, k: nat)
    requires k <= 9 && Shift(k) < 64 && x < 0x80 && (k <= 8 || x <= 1) && Value(word) < Weight(k)
    ensures Value(Or(word, x, Shift(k))) == Value(word) + Weight(k) * Value(x)
    decreases k
  {
    hide Value, Or, Shift, Shorten, Low;
    if k == 0 {
      OrFirst(word, x);
    } else {
      ShiftRange(k);
      Unshift(word, x, Shift(k));
      OrAdds(Shorten(word), x, k - 1);
      Carried(Value(Or(word, x, Shift(k))), Value(word), Weight(k - 1), Value(x));
    }
  }

  lemma Carried(r: nat, w: nat, p: nat, x: nat)
    requires r % 128 == w % 128 && r / 128 == w / 128 + p * x
    ensures r == w + 128 * p * x
  {
  }

  lemma TopBit(word: bv64, x: bv64)
    ensures Or(word, x, 63) == Or(word, x & 1, 63) && x & 1 <= 1
  {
  }

  /** At the last shift only the lowest bit of the septet stays in the word: the sum wraps. */
  lemma OrWraps(word: bv64, x: bv64)
    requires Shift(9) < 64 && Value(word) < Weight(9)
    ensures Value(Or(word, x, Shift(9))) == (Value(word) + Weight(9) * Value(x)) % 0x1_0000_0000_0000_0000
  {
    hide Value, Or, Weight;
    TopBit(word, x);
    LowBit(x);
    OrAdds(word, x & 1, 9);
    WeightNine();
    TopSum(Value(word), Value(x));
  }

  lemma TopSum(w: nat, x: nat)
    requires w < 0x8000_0000_0000_0000
    ensures w + 0x8000_0000_0000_0000 * (x % 2) == (w + 0x8000_0000_0000_0000 * x) % 0x1_0000_0000_0000_0000
  {
    assert 0x8000_0000_0000_0000 * x == 0x1_0000_0000_0000_0000 * (x / 2) + 0x8000_0000_0000_0000 * (x % 2);
  }
}
