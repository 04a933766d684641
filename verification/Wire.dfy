/** Base 128 varints of the Protocol Buffers encoding (section "Base 128 Varints"), as
    the generated chain code reads, writes and measures them. */
module Wire {
  import Bits

  type Byte = b: int | 0 <= b < 256
  type Bytes = seq<Byte>
  type Septet = b: int | 0 <= b < 128

  const TWO_31 := 0x8000_0000
  const TWO_32 := 0x1_0000_0000
  const TWO_63 := 0x8000_0000_0000_0000
  const TWO_64 := 0x1_0000_0000_0000_0000

  /** The errors of the generated decoders. `NoError` stands for a nil error. */
  datatype Error =
    | NoError
    | IntOverflow
    | UnexpectedEOF
    | InvalidLength
    | UnexpectedEndOfGroup
    | IllegalWireType(wireType: nat)
    | EndGroupForNonGroup
    | IllegalTag(number: int)
    | WrongWireType(wireType: nat, number: int)

  /** A value read from the front of a byte string, and how many bytes it took. */
  datatype Parse = Ok(value: nat, size: nat) | Fail(error: Error)

  function Pow128(k: nat): (p: nat)
    ensures p > 0
  {
    if k == 0 then 1 else 128 * Pow128(k - 1)
  }

  /** The base 128 number at the front of `s`, not yet reduced to 64 bits, when `k`
      of the at most ten bytes have been read already. */
  function Septets(s: Bytes, k: nat): (r: Parse)
    ensures r.Ok? ==> 1 <= r.size <= |s| && k + r.size <= 10
    ensures r.Fail? ==> r.error != NoError
    decreases |s|
  {
    if k >= 10 then Fail(IntOverflow)
    else if s == [] then Fail(UnexpectedEOF)
    else if s[0] < 128 then Ok(s[0], 1)
    else match Septets(s[1..], k + 1)
      case Ok(v, n) => Ok(s[0] - 128 + 128 * v, n + 1)
      case Fail(e) => Fail(e)
  }

  /** What a decode loop over a 64-bit accumulator reads at the front of `s`. */
  function Varint(s: Bytes): (r: Parse)
    ensures r.Ok? ==> 1 <= r.size <= |s| && r.size <= 10 && r.value < TWO_64
    ensures r.Fail? ==> r.error != NoError
  {
    match Septets(s, 0)
    case Ok(v, n) => Ok(v % TWO_64, n)
    case Fail(e) => Fail(e)
  }

  /** The shortest encoding of `v`. */
  function VarintBytes(v: nat): (s: Bytes)
    ensures s != []
  {
    if v < 128 then [v] else [v % 128 + 128] + VarintBytes(v / 128)
  }

  /** Number of bits needed for `x`, 0 for 0. */
  function BitLength(x: nat): nat {
    if x == 0 then 0 else 1 + BitLength(x / 2)
  }

  /** The size formula: bit length of `x | 1`, plus six, divided by seven. */
  function Sov(x: nat): nat {
    (BitLength(if x % 2 == 0 then x + 1 else x) + 6) / 7
  }

  // ---------------------------------------------------------------- sizes

  lemma BitLengthBy128(x: nat)
    requires x >= 128
    ensures BitLength(x) == 7 + BitLength(x / 128)
  {
    assert x / 2 / 2 / 2 / 2 / 2 / 2 / 2 == x / 128;
    var a := x / 2;
    var b := a / 2;
    var c := b / 2;
    var e := c / 2;
    var f := e / 2;
    var g := f / 2;
    assert BitLength(x) == 1 + BitLength(a);
    assert BitLength(a) == 1 + BitLength(b);
    assert BitLength(b) == 1 + BitLength(c);
    assert BitLength(c) == 1 + BitLength(e);
    assert BitLength(e) == 1 + BitLength(f);
    assert BitLength(f) == 1 + BitLength(g);
    assert BitLength(g) == 1 + BitLength(g / 2);
  }

  lemma BitLengthBelow128(x: nat)
    requires 0 < x < 128
    ensures 1 <= BitLength(x) <= 7
  {
    var a := x / 2;
    var b := a / 2;
    var c := b / 2;
    var e := c / 2;
    var f := e / 2;
    var g := f / 2;
    assert g / 2 == 0;
    assert BitLength(g) <= 1;
    assert BitLength(f) <= 2;
    assert BitLength(e) <= 3;
    assert BitLength(c) <= 4;
    assert BitLength(b) <= 5;
    assert BitLength(a) <= 6;
  }

  /** The size formula counts exactly the bytes of the shortest encoding. */
  lemma {:induction false} SovIsEncodedSize(x: nat)
    ensures Sov(x) == |VarintBytes(x)|
    decreases x
  {
    var odd := if x % 2 == 0 then x + 1 else x;
    if x < 128 {
      BitLengthBelow128(odd);
    } else {
      SovIsEncodedSize(x / 128);
      var rest := x / 128;
      var oddRest := if rest % 2 == 0 then rest + 1 else rest;
      BitLengthBy128(odd);
      assert odd / 128 == rest;
      BitLengthOdd(rest);
    }
  }

  lemma BitLengthOdd(x: nat)
    requires x > 0
    ensures BitLength(if x % 2 == 0 then x + 1 else x) == BitLength(x)
  {
    if x % 2 == 0 {
      assert (x + 1) / 2 == x / 2;
    }
  }

  /** `Sov(v)` is the least count k >= 1 with v < 128^k. */
  lemma {:induction false} SovIsLeast(v: nat, k: nat)
    requires k >= 1
    ensures Sov(v) <= k <==> v < Pow128(k)
    decreases k
  {
    SovIsEncodedSize(v);
    if k == 1 {
      assert Pow128(1) == 128 * Pow128(0);
    } else if v < 128 {
      assert Pow128(k) == 128 * Pow128(k - 1);
    } else {
      SovIsEncodedSize(v / 128);
      SovIsLeast(v / 128, k - 1);
      assert v / 128 < Pow128(k - 1) <==> v < 128 * Pow128(k - 1);
    }
  }

  lemma Pow128Ten()
    ensures Pow128(9) == TWO_63 && Pow128(10) == 128 * TWO_63
  {
    assert Pow128(3) == 0x20_0000 by {
      assert Pow128(1) == 128 && Pow128(2) == 128 * Pow128(1) && Pow128(3) == 128 * Pow128(2);
    }
    assert Pow128(6) == 0x20_0000 * 0x20_0000 by {
      assert Pow128(4) == 128 * Pow128(3) && Pow128(5) == 128 * Pow128(4) && Pow128(6) == 128 * Pow128(5);
    }
    assert Pow128(7) == 128 * Pow128(6) && Pow128(8) == 128 * Pow128(7) && Pow128(9) == 128 * Pow128(8);
  }

  /** A 64-bit value takes one to ten bytes. */
  lemma SovBounds(v: nat)
    requires v < TWO_64
    ensures 1 <= Sov(v) <= 10
  {
    Pow128Ten();
    SovIsLeast(v, 10);
    SovIsEncodedSize(v);
  }

  lemma {:induction false} SovMonotone(x: nat, y: nat)
    requires x <= y
    ensures Sov(x) <= Sov(y)
  {
    SovIsEncodedSize(y);
    SovIsLeast(y, Sov(y));
    SovIsLeast(x, Sov(y));
  }

  // ---------------------------------------------------------------- reading

  /** A successful read looks only at the bytes it consumes. */
  lemma {:induction false} SeptetsLocal(s: Bytes, s': Bytes, k: nat)
    requires Septets(s, k).Ok?
    requires var n := Septets(s, k).size; n <= |s'| && s'[..n] == s[..n]
    ensures Septets(s', k) == Septets(s, k)
    decreases |s|
  {
    var n := Septets(s, k).size;
    assert s'[0] == s'[..n][0] == s[..n][0] == s[0];
    if s[0] >= 128 {
      assert s'[1..][..n - 1] == s'[..n][1..] == s[..n][1..] == s[1..][..n - 1];
      SeptetsLocal(s[1..], s'[1..], k + 1);
    }
  }

  lemma {:induction false} SeptetsErrors(s: Bytes, k: nat)
    requires k <= 10
    ensures Septets(s, k) == Fail(UnexpectedEOF) <==> |s| < 10 - k && forall i :: 0 <= i < |s| ==> s[i] >= 128
    ensures Septets(s, k) == Fail(IntOverflow) <==> |s| >= 10 - k && forall i :: 0 <= i < 10 - k ==> s[i] >= 128
    decreases |s|
  {
    if k < 10 && s != [] && s[0] >= 128 {
      SeptetsErrors(s[1..], k + 1);
      assert forall i :: 0 < i < |s| ==> s[i] == s[1..][i - 1];
      assert forall i :: 0 <= i < |s[1..]| ==> s[1..][i] == s[i + 1];
    }
  }

  /** A varint is cut short when all bytes are there to be continued and are fewer than ten; it is
      too long when ten are. */
  lemma VarintErrors(s: Bytes)
    ensures Varint(s) == Fail(UnexpectedEOF) <==> |s| < 10 && forall i :: 0 <= i < |s| ==> s[i] >= 128
    ensures Varint(s) == Fail(IntOverflow) <==> |s| >= 10 && forall i :: 0 <= i < 10 ==> s[i] >= 128
    ensures Varint(s).Fail? ==> Varint(s).error in {UnexpectedEOF, IntOverflow}
  {
    SeptetsErrors(s, 0);
    OnlyTwoErrors(s, 0);
  }

  lemma {:induction false} OnlyTwoErrors(s: Bytes, k: nat)
    ensures Septets(s, k).Fail? ==> Septets(s, k).error in {UnexpectedEOF, IntOverflow}
    decreases |s|
  {
    if s != [] {
      OnlyTwoErrors(s[1..], k + 1);
    }
  }

  lemma VarintLocal(s: Bytes, s': Bytes)
    requires Varint(s).Ok?
    requires var n := Varint(s).size; n <= |s'| && s'[..n] == s[..n]
    ensures Varint(s') == Varint(s)
  {
    SeptetsLocal(s, s', 0);
  }

  lemma {:induction false} SeptetsReadBack(v: nat, k: nat, rest: Bytes)
    requires k + |VarintBytes(v)| <= 10
    ensures Septets(VarintBytes(v) + rest, k) == Ok(v, |VarintBytes(v)|)
    decreases v
  {
    var s := VarintBytes(v) + rest;
    if v >= 128 {
      assert s[1..] == VarintBytes(v / 128) + rest;
      SeptetsReadBack(v / 128, k + 1, rest);
    }
  }

  /** The decode loop reads back every 64-bit value and stops right after it. */
  lemma VarintReadBack(v: nat, rest: Bytes)
    requires v < TWO_64
    ensures Varint(VarintBytes(v) + rest) == Ok(v, |VarintBytes(v)|)
  {
    SovBounds(v);
    SovIsEncodedSize(v);
    SeptetsReadBack(v, 0, rest);
  }

  /** The base 128 number with the least significant septet first. */
  function Base128(g: seq<Septet>): nat {
    if g == [] then 0 else g[0] + 128 * Base128(g[1..])
  }

  /** Septets on the wire: all but the last carry the continuation bit. */
  function Continued(g: seq<Septet>): (s: Bytes)
    ensures |s| == |g|
  {
    if g == [] then [] else
    var low: int := g[0];
    if |g| == 1 then [low] else [low + 128] + Continued(g[1..])
  }

  lemma {:induction false} SeptetsOfContinued(g: seq<Septet>, k: nat, rest: Bytes)
    requires 1 <= |g| && k + |g| <= 10
    ensures Septets(Continued(g) + rest, k) == Ok(Base128(g), |g|)
    decreases |g|
  {
    var s := Continued(g) + rest;
    if |g| == 1 {
      assert Base128(g[1..]) == 0;
    } else {
      assert s[1..] == Continued(g[1..]) + rest;
      SeptetsOfContinued(g[1..], k + 1, rest);
    }
  }

  lemma {:induction false} ContinuedOfSeptets(s: Bytes, k: nat) returns (g: seq<Septet>)
    requires Septets(s, k).Ok?
    ensures |g| == Septets(s, k).size && s[..|g|] == Continued(g)
    decreases |s|
  {
    if s[0] < 128 {
      g := [s[0]];
    } else {
      var rest := ContinuedOfSeptets(s[1..], k + 1);
      g := [s[0] - 128] + rest;
      assert g[1..] == rest;
      assert s[..|g|] == [s[0]] + s[1..][..|rest|];
    }
  }

  /** A read of `n` bytes succeeds with value `v` exactly when those bytes are one to ten
      septets, shortest form or not, whose base 128 sum modulo 2^64 is `v`. */
  lemma VarintIsBase128(s: Bytes, v: nat, n: nat)
    ensures Varint(s) == Ok(v, n) <==>
            exists g: seq<Septet> :: 1 <= |g| <= 10 && |g| == n && Continued(g) <= s && v == Base128(g) % TWO_64
  {
    if Varint(s) == Ok(v, n) {
      var g := ContinuedOfSeptets(s, 0);
      SeptetsOfContinued(g, 0, s[|g|..]);
      assert s == Continued(g) + s[|g|..];
    }
    forall g: seq<Septet> | 1 <= |g| <= 10 && |g| == n && Continued(g) <= s && v == Base128(g) % TWO_64
      ensures Varint(s) == Ok(v, n)
    {
      SeptetsOfContinued(g, 0, s[|g|..]);
      assert s == Continued(g) + s[|g|..];
    }
  }

  /** Every accepted varint is at least as long as the shortest form of its value. */
  lemma {:induction false} SeptetsAtLeastSov(s: Bytes, k: nat)
    requires Septets(s, k).Ok?
    ensures Septets(s, k).value < Pow128(Septets(s, k).size)
    decreases |s|
  {
    var n := Septets(s, k).size;
    assert Pow128(n) == 128 * Pow128(n - 1);
    if s[0] >= 128 {
      SeptetsAtLeastSov(s[1..], k + 1);
    }
  }

  lemma VarintAtLeastSov(s: Bytes)
    requires Varint(s).Ok?
    ensures Sov(Varint(s).value) <= Varint(s).size
  {
    SeptetsAtLeastSov(s, 0);
    var v := Septets(s, 0).value;
    assert v % TWO_64 <= v;
    SovIsLeast(v % TWO_64, Varint(s).size);
  }

  // ---------------------------------------------------------------- loops

  /** The read of `whole` is decided by `rest`, what is left after `k` septets that
      summed up to `acc`. */
  ghost predicate Continues(whole: Bytes, rest: Bytes, k: nat, acc: nat) {
    Septets(whole, 0) == match Septets(rest, k)
                         case Ok(v, n) => Ok(acc + Pow128(k) * v, k + n)
                         case Fail(e) => Fail(e)
  }

  /** The accumulator after one more septet. */
  function Accumulate(acc: nat, k: nat, septet: nat): (r: nat)
    ensures r < TWO_64
  {
    (acc + Pow128(k) * septet) % TWO_64
  }

  /** A turn of the decode loop that meets a byte without the continuation bit. */
  lemma ContinuesLast(whole: Bytes, rest: Bytes, k: nat, acc: nat)
    requires Continues(whole, rest, k, acc) && k < 10 && rest != [] && rest[0] < 128
    ensures Varint(whole) == Ok(Accumulate(acc, k, rest[0]), k + 1)
  {
    assert Septets(rest, k) == Ok(rest[0], 1);
  }

  /** A turn that meets a byte with the continuation bit: within nine bytes the sum still
      fits, and a tenth is followed by the overflow error. */
  lemma ContinuesMore(whole: Bytes, rest: Bytes, k: nat, acc: nat)
    requires Continues(whole, rest, k, acc) && k < 10 && rest != [] && rest[0] >= 128
    requires acc < Pow128(k)
    ensures Continues(whole, rest[1..], k + 1, Accumulate(acc, k, rest[0] - 128))
    ensures k < 9 ==> Accumulate(acc, k, rest[0] - 128) < Pow128(k + 1)
  {
    if k < 9 {
      SeptetFits(k, acc, rest[0] - 128);
      assert Accumulate(acc, k, rest[0] - 128) == acc + Pow128(k) * (rest[0] - 128);
      ContinuesWithin(whole, rest, k, acc);
    } else {
      assert Septets(rest[1..], k + 1) == Fail(IntOverflow);
    }
  }

  lemma ContinuesWithin(whole: Bytes, rest: Bytes, k: nat, acc: nat)
    requires Continues(whole, rest, k, acc) && k < 10 && rest != [] && rest[0] >= 128
    ensures Continues(whole, rest[1..], k + 1, acc + Pow128(k) * (rest[0] - 128))
  {
    if Septets(rest[1..], k + 1).Ok? {
      Distribute(Pow128(k), rest[0] - 128, Septets(rest[1..], k + 1).value);
    }
  }

  lemma Distribute(p: nat, x: int, v: nat)
    ensures p * (x + 128 * v) == p * x + 128 * p * v
  {
  }

  lemma SeptetFits(k: nat, acc: nat, x: Septet)
    requires k <= 8 && acc < Pow128(k)
    ensures acc + Pow128(k) * x < Pow128(k + 1) <= TWO_63
  {
    Pow128Ten();
    Pow128Monotone(k + 1, 9);
    assert Pow128(k) * x <= Pow128(k) * 127;
  }

  lemma {:induction false} Pow128Monotone(j: nat, k: nat)
    requires j <= k
    ensures Pow128(j) <= Pow128(k)
    decreases k
  {
    if j < k {
      Pow128Monotone(j, k - 1);
    }
  }

  lemma ContinuesEnds(whole: Bytes, rest: Bytes, k: nat, acc: nat)
    requires Continues(whole, rest, k, acc)
    ensures k == 10 ==> Varint(whole) == Fail(IntOverflow)
    ensures k < 10 && rest == [] ==> Varint(whole) == Fail(UnexpectedEOF)
  {
  }

  lemma Pow128Table()
    ensures Pow128(0) == 1 && Pow128(1) == 0x80 && Pow128(2) == 0x4000 && Pow128(3) == 0x20_0000
    ensures Pow128(4) == 0x1000_0000 && Pow128(5) == 0x8_0000_0000 && Pow128(6) == 0x400_0000_0000
    ensures Pow128(7) == 0x2_0000_0000_0000 && Pow128(8) == 0x100_0000_0000_0000
  {
    assert Pow128(3) == 128 * Pow128(2) && Pow128(2) == 128 * Pow128(1) && Pow128(1) == 128 * Pow128(0);
    assert Pow128(6) == 128 * Pow128(5) && Pow128(5) == 128 * Pow128(4) && Pow128(4) == 128 * Pow128(3);
    assert Pow128(8) == 128 * Pow128(7) && Pow128(7) == 128 * Pow128(6);
  }

  /** `word |= x << shift`, at every shift of the loop, is one more septet in the sum. */
  lemma OrAccumulates(word: bv64, x: bv64, k: nat)
    requires k <= 9 && Bits.Shift(k) < 64 && x < 0x80 && Bits.Value(x) < 128 && Bits.Value(word) < Pow128(k)
    ensures Bits.Value(Bits.Or(word, x, Bits.Shift(k))) == Accumulate(Bits.Value(word), k, Bits.Value(x))
  {
    hide Bits.Value, Bits.Or, Bits.Shift, Bits.Weight, Pow128;
    WeightIsPow(k);
    if k <= 8 {
      Bits.OrAdds(word, x, k);
      SeptetFits(k, Bits.Value(word), Bits.Value(x));
    } else {
      Bits.OrWraps(word, x);
    }
  }

  lemma {:induction false} WeightIsPow(k: nat)
    ensures Bits.Weight(k) == Pow128(k)
    decreases k
  {
    if k > 0 {
      WeightIsPow(k - 1);
    }
  }

  /** The decode loop: an index and a shift move together while a 64-bit word collects seven
      bits a byte. */
  method ReadVarint(d: Bytes, start: nat) returns (word: bv64, index: nat, err: Error)
    requires start <= |d|
    ensures start <= index <= |d| && (err == NoError ==> start < index)
    ensures Varint(d[start..]).Ok? ==> err == NoError && Varint(d[start..]) == Ok(Bits.Value(word), index - start)
    ensures Varint(d[start..]).Fail? ==> err == Varint(d[start..]).error != NoError
  {
    hide Bits.Value, Bits.Or, Bits.Shift, Bits.Septet, Continues, Accumulate, Pow128, Varint, Septets;
    WordZero();
    word, index, err := 0, start, NoError;
    ghost var whole := d[start..];
    ContinuesStart(whole);
    var shift: bv64 := 0;
    while true
      invariant start <= index <= |d| && index - start <= 10 && shift == Bits.Shift(index - start)
      invariant err == NoError
      invariant index - start <= 9 ==> Bits.Value(word) < Pow128(index - start)
      invariant Continues(whole, d[index..], index - start, Bits.Value(word))
      decreases |d| - index
    {
      ghost var k := index - start;
      ContinuesEnds(whole, d[index..], k, Bits.Value(word));
      Bits.ShiftWithin(k);
      if shift >= 64 {
        return 0, index, IntOverflow;
      }
      if index >= |d| {
        return 0, index, UnexpectedEOF;
      }
      var b := d[index];
      ghost var acc, rest := Bits.Value(word), d[index..];
      assert rest[0] == b && rest[1..] == d[index + 1..];
      OrAccumulates(word, Bits.Septet(b), k);
      word := Bits.Or(word, Bits.Septet(b), shift);
      index := index + 1;
      if b < 128 {
        ContinuesLast(whole, rest, k, acc);
        return;
      }
      ContinuesMore(whole, rest, k, acc);
      Bits.NextShift(k);
      shift := shift + 7;
    }
  }

  lemma ContinuesStart(whole: Bytes)
    ensures Continues(whole, whole, 0, 0) && Pow128(0) == 1
  {
  }

  lemma WordZero()
    ensures Bits.Value(0) == 0 && Bits.Shift(0) == 0
  {
  }

  /** The size function of the generated code. */
  method SovTx(x: bv64) returns (n: nat)
    ensures n == Sov(Bits.Value(x))
  {
    hide Bits.Value, Bits.MadeOdd;
    n := (BitLength(Bits.Value(Bits.MadeOdd(x))) + 6) / 7;
  }
}
