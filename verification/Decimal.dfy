/** Decimal notation of integers, as big integers print and read themselves. */
module Decimal {
  import opened Wire

  datatype Option<T> = None | Some(value: T)

  const ZERO: Byte := 48
  const MINUS: Byte := 45

  predicate IsDigit(b: Byte) {
    ZERO <= b < ZERO + 10
  }

  predicate AllDigits(s: Bytes) {
    forall i :: 0 <= i < |s| ==> IsDigit(s[i])
  }

  /** The number a digit string spells; leading zeros are allowed, none means 0. */
  function Val(s: Bytes): nat
    requires AllDigits(s)
  {
    if s == [] then 0 else 10 * Val(s[..|s| - 1]) + (s[|s| - 1] - ZERO)
  }

  function Digits(n: nat): (s: Bytes)
    ensures s != [] && AllDigits(s)
  {
    if n < 10 then [ZERO + n] else Digits(n / 10) + [ZERO + n % 10]
  }

  /** A digit string without a leading zero, unless it is just "0". */
  predicate Canonical(s: Bytes) {
    s != [] && AllDigits(s) && (s[0] == ZERO ==> |s| == 1)
  }

  function Print(n: int): Bytes {
    if n < 0 then [MINUS] + Digits(-n) else Digits(n)
  }

  /** Reads exactly what `Print` writes. */
  function ReadDecimal(s: Bytes): Option<int> {
    if Canonical(s) then
      var v: int := Val(s);
      Some(v)
    else if s != [] && s[0] == MINUS && Canonical(s[1..]) && Val(s[1..]) > 0 then
      var v: int := Val(s[1..]);
      Some(-v)
    else None
  }

  lemma {:induction false} DigitsSpell(n: nat)
    ensures Val(Digits(n)) == n && Canonical(Digits(n)) && (Digits(n)[0] == ZERO ==> n == 0)
    decreases n
  {
    if n >= 10 {
      var s := Digits(n);
      assert s[..|s| - 1] == Digits(n / 10);
      DigitsSpell(n / 10);
    }
  }

  lemma {:induction false} ValDetermines(s: Bytes)
    requires Canonical(s)
    ensures Digits(Val(s)) == s
    decreases |s|
  {
    if |s| == 1 {
      assert s[..0] == [];
    } else {
      var front := s[..|s| - 1];
      ValDetermines(front);
      DigitsSpell(Val(front));
      assert s == front + [s[|s| - 1]];
    }
  }

  lemma CanonicalIsDigits(s: Bytes, n: nat)
    ensures Canonical(s) && Val(s) == n <==> s == Digits(n)
  {
    DigitsSpell(n);
    if Canonical(s) {
      ValDetermines(s);
    }
  }

  /** Printing and reading are inverse to each other. */
  lemma ReadIsInverse(s: Bytes, n: int)
    ensures ReadDecimal(s) == Some(n) <==> s == Print(n)
  {
    hide Digits, Val;
    if n >= 0 {
      CanonicalIsDigits(s, n);
    } else {
      if s != [] {
        CanonicalIsDigits(s[1..], -n);
        assert s == [s[0]] + s[1..];
      }
      CanonicalIsDigits(Digits(-n), -n);
      assert Print(n)[1..] == Digits(-n);
    }
  }

  // ---------------------------------------------------------------- digit strings

  function Pow10(k: nat): (p: nat)
    ensures p > 0
  {
    if k == 0 then 1 else 10 * Pow10(k - 1)
  }

  lemma {:induction false} ValConcat(s: Bytes, t: Bytes)
    requires AllDigits(s) && AllDigits(t)
    ensures AllDigits(s + t) && Val(s + t) == Val(s) * Pow10(|t|) + Val(t)
    decreases |t|
  {
    if t == [] {
      assert s + t == s;
    } else {
      var front := t[..|t| - 1];
      ValConcat(s, front);
      assert (s + t)[..|s + t| - 1] == s + front;
      assert Val(s) * Pow10(|t|) == 10 * (Val(s) * Pow10(|front|));
    }
  }

  lemma {:induction false} ValBound(s: Bytes)
    requires AllDigits(s)
    ensures Val(s) < Pow10(|s|)
    decreases |s|
  {
    if s != [] {
      ValBound(s[..|s| - 1]);
    }
  }

  lemma {:induction false} ValZeros(s: Bytes)
    requires forall i :: 0 <= i < |s| ==> s[i] == ZERO
    ensures AllDigits(s) && Val(s) == 0
    decreases |s|
  {
    if s != [] {
      ValZeros(s[..|s| - 1]);
    }
  }
}
