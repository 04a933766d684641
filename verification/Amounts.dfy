/** The wallet's amounts: from what the user types to the smallest unit, and back to a
    display string through a double-precision quotient. */
module Amounts {
  import opened Wire
  import opened Decimal
  import opened Doubles
  import Bank
  import Ledger

  /** A UTF-16 code unit, of which the wallet's strings are made. */
  type CodeUnit = u: int | 0 <= u < 0x1_0000
  type Text = seq<CodeUnit>

  const DOT: Byte := 46
  const COMMA: Byte := 44
  const SUFFIX: Bytes := [32, 83, 84, 66]  // " STB"

  // ---------------------------------------------------------------- string operations

  /** White space and line terminators of the language, which `trim` removes. */
  predicate Space(u: CodeUnit) {
    || 9 <= u <= 13 || u == 0x20 || u == 0xa0 || u == 0x1680 || 0x2000 <= u <= 0x200a
    || u == 0x2028 || u == 0x2029 || u == 0x202f || u == 0x205f || u == 0x3000 || u == 0xfeff
  }

  /** Unit by unit. */
  lemma SpaceUnits(u: CodeUnit)
    ensures Space(u) <==>
            u in {0x9, 0xa, 0xb, 0xc, 0xd, 0x20, 0xa0, 0x1680, 0x2000, 0x2001, 0x2002, 0x2003, 0x2004, 0x2005, 0x2006,
                  0x2007, 0x2008, 0x2009, 0x200a, 0x2028, 0x2029, 0x202f, 0x205f, 0x3000, 0xfeff}
  {
  }

  predicate DigitUnit(u: CodeUnit) {
    ZERO <= u < ZERO + 10
  }

  function TrimStart(s: Text): Text {
    if s != [] && Space(s[0]) then TrimStart(s[1..]) else s
  }

  function TrimEnd(s: Text): Text {
    if s != [] && Space(s[|s| - 1]) then TrimEnd(s[..|s| - 1]) else s
  }

  /** Index of the first `b`, or the length if there is none. */
  function IndexOf(s: Text, b: CodeUnit): (i: nat)
    ensures i <= |s| && (i < |s| ==> s[i] == b)
  {
    if s == [] || s[0] == b then 0 else 1 + IndexOf(s[1..], b)
  }

  function ReplaceFirst(s: Text, from: CodeUnit, to: CodeUnit): Text {
    var i := IndexOf(s, from);
    if i < |s| then s[i := to] else s
  }

  function KeptUnit(u: CodeUnit): Bytes {
    if DigitUnit(u) then [u] else []
  }

  /** Everything that is not a digit is dropped. */
  function OnlyDigits(s: Text): (r: Bytes)
    ensures AllDigits(r)
  {
    if s == [] then [] else KeptUnit(s[0]) + OnlyDigits(s[1..])
  }

  function Zeros(k: nat): (r: Bytes)
    ensures |r| == k && AllDigits(r)
  {
    seq(k, _ => ZERO)
  }

  function PadEnd(s: Bytes, k: nat): Bytes {
    if |s| < k then s + Zeros(k - |s|) else s
  }

  function PadStart(s: Bytes, k: nat): Bytes {
    if |s| < k then Zeros(k - |s|) + s else s
  }

  // ---------------------------------------------------------------- parsing

  function WholeDigits(part: Text): (r: Bytes)
    ensures AllDigits(r)
  {
    var digits := OnlyDigits(part);
    if digits == [] then [ZERO] else digits
  }

  /** The first six digits, padded with zeros. */
  function FracDigits(part: Text): (r: Bytes)
    ensures AllDigits(r)
  {
    var digits := OnlyDigits(part);
    SixOf(digits)
  }

  function SixOf(digits: Bytes): (r: Bytes)
    requires AllDigits(digits)
    ensures AllDigits(r)
  {
    PadEnd(digits[..if |digits| < 6 then |digits| else 6], 6)
  }

  function Units(trimmed: Text): Bytes {
    var i := IndexOf(trimmed, DOT);
    var rest := trimmed[if i < |trimmed| then i + 1 else i..];
    Print(Val(WholeDigits(trimmed[..i])) * MILLION + Val(FracDigits(rest[..IndexOf(rest, DOT)])))
  }

  /** `parseStbToUstb`. */
  function ParseStbToUstb(amount: Text): Bytes {
    var trimmed := ReplaceFirst(TrimEnd(TrimStart(amount)), COMMA, DOT);
    if trimmed == [] then [] else Units(trimmed)
  }

  lemma {:induction false} TrimsStart(pre: Text, s: Text)
    requires (forall i :: 0 <= i < |pre| ==> Space(pre[i])) && s != [] && !Space(s[0])
    ensures TrimStart(pre + s) == s
    decreases |pre|
  {
    if pre == [] {
      assert pre + s == s;
    } else {
      assert (pre + s)[1..] == pre[1..] + s;
      TrimsStart(pre[1..], s);
    }
  }

  lemma {:induction false} TrimsEnd(s: Text, post: Text)
    requires (forall i :: 0 <= i < |post| ==> Space(post[i])) && s != [] && !Space(s[|s| - 1])
    ensures TrimEnd(s + post) == s
    decreases |post|
  {
    if post == [] {
      assert s + post == s;
    } else {
      assert (s + post)[..|s + post| - 1] == s + post[..|post| - 1];
      TrimsEnd(s, post[..|post| - 1]);
    }
  }

  lemma {:induction false} FindsFirst(s: Text, b: CodeUnit, t: Text)
    requires b !in s
    ensures IndexOf(s + [b] + t, b) == |s| && IndexOf(s, b) == |s|
    decreases |s|
  {
    if s != [] {
      assert (s + [b] + t)[1..] == s[1..] + [b] + t;
      FindsFirst(s[1..], b, t);
    }
  }

  /** Digits are kept, in order, and nothing else is. */
  lemma {:induction false} OnlyDigitsFilters(s: Text, t: Text, u: CodeUnit)
    ensures OnlyDigits(s + t) == OnlyDigits(s) + OnlyDigits(t)
    ensures OnlyDigits([]) == [] && OnlyDigits([u]) == if '0' as int <= u <= '9' as int then [u] else []
    decreases |s|
  {
    FewDigits(u);
    hide OnlyDigits, KeptUnit;
    if s == [] {
      assert s + t == t;
    } else {
      OnlyDigitsFilters(s[1..], t, u);
      DigitsStep(s);
      DigitsStep(s + t);
      assert (s + t)[1..] == s[1..] + t;
      Regrouped(KeptUnit(s[0]), OnlyDigits(s[1..]), OnlyDigits(t));
    }
  }

  lemma FewDigits(u: CodeUnit)
    ensures OnlyDigits([]) == [] && OnlyDigits([u]) == if '0' as int <= u <= '9' as int then [u] else []
  {
    assert [u][1..] == [];
  }

  lemma DigitsStep(s: Text)
    requires s != []
    ensures OnlyDigits(s) == KeptUnit(s[0]) + OnlyDigits(s[1..])
  {
  }

  lemma Regrouped(a: Bytes, b: Bytes, c: Bytes)
    ensures a + (b + c) == a + b + c
  {
  }

  lemma {:induction false} KeepsDigits(s: Bytes, t: Text)
    requires AllDigits(s) && forall i :: 0 <= i < |t| ==> !DigitUnit(t[i])
    ensures OnlyDigits(s + t) == s
    decreases |s| + |t|
  {
    if s != [] {
      assert (s + t)[1..] == s[1..] + t;
      KeepsDigits(s[1..], t);
    } else if t != [] {
      assert (s + t)[1..] == s + t[1..];
      KeepsDigits(s, t[1..]);
    }
  }

  lemma PartsAreDigits(w: Bytes, f: Bytes, suffix: Text)
    requires AllDigits(w) && AllDigits(f)
    requires forall i :: 0 <= i < |suffix| ==> !DigitUnit(suffix[i])
    ensures Val(WholeDigits(w)) == Val(w) && FracDigits(f + suffix) == SixOf(f)
  {
    KeepsDigits(w, []);
    assert w + [] == w;
    KeepsDigits(f, suffix);
    assert Val([ZERO]) == 0;
  }

  /** The numeral part of a literal, after trimming: digits, a separator, digits, and a
      suffix without digits or dots. */
  lemma ParseTrimmed(amount: Text, w: Bytes, f: Bytes, suffix: Text)
    requires AllDigits(w) && AllDigits(f)
    requires forall i :: 0 <= i < |suffix| ==> !DigitUnit(suffix[i]) && suffix[i] != DOT
    requires ReplaceFirst(TrimEnd(TrimStart(amount)), COMMA, DOT) == w + [DOT] + (f + suffix)
    ensures ParseStbToUstb(amount) == Print(Val(w) * MILLION + Val(SixOf(f)))
  {
    hide ReplaceFirst, TrimEnd, TrimStart, WholeDigits, FracDigits, SixOf, Val, Print;
    var trimmed, rest := w + [DOT] + (f + suffix), f + suffix;
    FindsFirst(w, DOT, rest);
    FindsFirst(rest, DOT, []);
    assert trimmed[..|w|] == w && trimmed[|w| + 1..] == rest;
    assert rest[..|rest|] == rest;
    PartsAreDigits(w, f, suffix);
  }

  lemma {:induction false} Pow10Sum(j: nat, k: nat)
    ensures Pow10(j + k) == Pow10(j) * Pow10(k)
    decreases k
  {
    if k > 0 {
      Pow10Sum(j, k - 1);
      assert Pow10(j) * Pow10(k) == 10 * (Pow10(j) * Pow10(k - 1));
    }
  }

  lemma Pow10Six()
    ensures Pow10(6) == MILLION
  {
    assert Pow10(3) == 1000 by {
      assert Pow10(1) == 10 && Pow10(2) == 100;
    }
    Pow10Sum(3, 3);
  }

  function FloorDiv(a: nat, b: nat): nat
    requires b > 0
  {
    a / b
  }

  lemma Quotient(a: nat, b: nat, q: nat, r: nat)
    requires a == q * b + r && r < b
    ensures a / b == q
  {
    var d := a / b;
    assert (d - q) * b == r - a % b;
    if d > q {
      AtLeast(d - q, b);
    } else if d < q {
      AtLeast(q - d, b);
    }
  }

  /** Six digits after the separator, cut or padded, are the floor of the fraction in
      millionths. */
  lemma SixDigits(w: nat, f: Bytes)
    requires AllDigits(f)
    ensures w * MILLION + Val(SixOf(f)) == FloorDiv((w * Pow10(|f|) + Val(f)) * MILLION, Pow10(|f|))
  {
    if |f| < 6 {
      PaddedShort(w, f);
    } else {
      CutAtSix(w, f);
    }
  }

  lemma PaddedShort(w: nat, f: Bytes)
    requires AllDigits(f) && |f| < 6
    ensures w * MILLION + Val(SixOf(f)) == FloorDiv((w * Pow10(|f|) + Val(f)) * MILLION, Pow10(|f|))
  {
    hide Val, Pow10, SixOf;
    var p := Pow10(6 - |f|);
    PaddedVal(f);
    SplitMillion(|f|);
    CutShort(w, Val(f), Pow10(|f|), p);
    Quotient((w * Pow10(|f|) + Val(f)) * MILLION, Pow10(|f|), w * MILLION + Val(f) * p, 0);
  }

  lemma PaddedVal(f: Bytes)
    requires AllDigits(f) && |f| < 6
    ensures Val(SixOf(f)) == Val(f) * Pow10(6 - |f|)
  {
    hide Val, Pow10, SixOf, Zeros;
    SixOfShort(f);
    ZerosAfter(f, 6 - |f|);
  }

  lemma SixOfShort(f: Bytes)
    requires AllDigits(f) && |f| < 6
    ensures SixOf(f) == f + Zeros(6 - |f|)
  {
    hide Zeros;
    assert f[..|f|] == f;
  }

  lemma SplitMillion(k: nat)
    requires k < 6
    ensures Pow10(k) * Pow10(6 - k) == MILLION
  {
    hide Pow10;
    Pow10Six();
    Pow10Sum(k, 6 - k);
  }

  lemma ZerosAfter(f: Bytes, k: nat)
    requires AllDigits(f)
    ensures AllDigits(f + Zeros(k)) && Val(f + Zeros(k)) == Val(f) * Pow10(k)
  {
    hide Val, Pow10;
    ValConcat(f, Zeros(k));
    ValZeros(Zeros(k));
  }

  lemma CutAtSix(w: nat, f: Bytes)
    requires AllDigits(f) && |f| >= 6
    ensures w * MILLION + Val(SixOf(f)) == FloorDiv((w * Pow10(|f|) + Val(f)) * MILLION, Pow10(|f|))
  {
    hide Val, Pow10;
    var p, x, y := Pow10(|f| - 6), Val(f[..6]), Val(f[6..]);
    CutVal(f);
    CutArithmetic(w, x, y, p);
  }

  lemma CutVal(f: Bytes)
    requires AllDigits(f) && |f| >= 6
    ensures Pow10(|f|) == MILLION * Pow10(|f| - 6) && Val(f[6..]) < Pow10(|f| - 6)
    ensures Val(f) == Val(f[..6]) * Pow10(|f| - 6) + Val(f[6..])
  {
    Pow10Six();
    Pow10Sum(6, |f| - 6);
    assert f == f[..6] + f[6..];
    ValConcat(f[..6], f[6..]);
    ValBound(f[6..]);
  }

  lemma CutArithmetic(w: nat, x: nat, y: nat, p: nat)
    requires y < p
    ensures w * MILLION + x == FloorDiv((w * (MILLION * p) + (x * p + y)) * MILLION, MILLION * p)
  {
    CutLong(w, x, y, p);
    Quotient((w * (MILLION * p) + (x * p + y)) * MILLION, MILLION * p, w * MILLION + x, y * MILLION);
  }

  lemma CutShort(w: nat, v: nat, b: nat, p: nat)
    requires b * p == MILLION
    ensures (w * b + v) * MILLION == (w * MILLION + v * p) * b
  {
    assert v * MILLION == v * p * b;
    assert w * b * MILLION == w * MILLION * b;
  }

  lemma CutLong(w: nat, x: nat, y: nat, p: nat)
    ensures (w * (MILLION * p) + (x * p + y)) * MILLION == (w * MILLION + x) * (MILLION * p) + y * MILLION
  {
  }

  /** White space, digits, a separator, digits, white space. */
  ghost predicate IsLiteral(s: Text, w: Bytes, separator: Byte, f: Bytes) {
    && AllDigits(w) && AllDigits(f) && (separator == DOT || separator == COMMA)
    && exists pre: Text, post: Text :: Blank(pre) && Blank(post) && s == pre + (w + [separator] + f + post)
  }

  ghost predicate Blank(s: Text) {
    forall i :: 0 <= i < |s| ==> Space(s[i])
  }

  /** All digits of the literal as one number. */
  function AllVal(w: Bytes, f: Bytes): nat
    requires AllDigits(w) && AllDigits(f)
  {
    Val(w) * Pow10(|f|) + Val(f)
  }

  /** The floor, in millionths, of the number with these digits before and after the point. */
  function Micros(w: Bytes, f: Bytes): nat
    requires AllDigits(w) && AllDigits(f)
  {
    FloorDiv(AllVal(w, f) * MILLION, Pow10(|f|))
  }

  lemma LiteralTrimmed(s: Text, w: Bytes, separator: Byte, f: Bytes)
    requires IsLiteral(s, w, separator, f)
    ensures ReplaceFirst(TrimEnd(TrimStart(s)), COMMA, DOT) == w + [DOT] + f
  {
    var t := w + [separator] + f;
    var pre: Text, post: Text :| Blank(pre) && Blank(post) && s == pre + (t + post);
    TrimsStart(pre, t + post);
    TrimsEnd(t, post);
    CommaReplaced(w, separator, f);
  }

  lemma CommaReplaced(w: Bytes, separator: Byte, f: Bytes)
    requires AllDigits(w) && AllDigits(f) && (separator == DOT || separator == COMMA)
    ensures ReplaceFirst(w + [separator] + f, COMMA, DOT) == w + [DOT] + f
  {
    if separator == COMMA {
      FindsFirst(w, COMMA, f);
    } else {
      FindsFirst(w + [separator] + f, COMMA, []);
    }
  }

  /** A literal with one separator, dot or comma, and any number of digits on either side,
      parses to the floor of its value in millionths, printed as a canonical decimal, which
      the chain's Mint reads as the same integer up to 256 bits. */
  lemma ParseLiteral(h: Ledger.Host, s: Text, w: Bytes, separator: Byte, f: Bytes)
    requires Ledger.Lawful(h) && IsLiteral(s, w, separator, f)
    ensures AllDigits(w) && AllDigits(f)
    ensures ParseStbToUstb(s) == Print(Micros(w, f))
    ensures h.parseInt(ParseStbToUstb(s)) == if Micros(w, f) < Bank.INT_LIMIT then Some(Micros(w, f) as int) else None
  {
    hide ParseStbToUstb, ReplaceFirst, TrimEnd, TrimStart, Val, Print, SixOf, Pow10;
    LiteralTrimmed(s, w, separator, f);
    assert f + [] == f;
    ParseTrimmed(s, w, f, []);
    SixDigits(Val(w), f);
  }

  lemma {:induction false} TrimStartDrops(s: Text) returns (pre: Text)
    ensures Blank(pre) && s == pre + TrimStart(s)
    ensures TrimStart(s) != [] ==> !Space(TrimStart(s)[0])
    decreases |s|
  {
    pre := [];
    if s != [] && Space(s[0]) {
      var rest := TrimStartDrops(s[1..]);
      pre := [s[0]] + rest;
    }
  }

  lemma {:induction false} TrimEndDrops(s: Text) returns (post: Text)
    ensures Blank(post) && s == TrimEnd(s) + post
    ensures TrimEnd(s) != [] ==> !Space(TrimEnd(s)[|TrimEnd(s)| - 1])
    decreases |s|
  {
    post := [];
    if s != [] && Space(s[|s| - 1]) {
      var rest := TrimEndDrops(s[..|s| - 1]);
      post := rest + [s[|s| - 1]];
    }
  }

  lemma {:induction false} FindsLeast(s: Text, b: CodeUnit)
    ensures b !in s[..IndexOf(s, b)]
    ensures b in s <==> IndexOf(s, b) < |s|
    decreases |s|
  {
    if s != [] && s[0] != b {
      FindsLeast(s[1..], b);
      assert s[..IndexOf(s, b)] == [s[0]] + s[1..][..IndexOf(s[1..], b)];
    }
  }

  /** `t` is `core` with a dot in place of its first comma. */
  ghost predicate Pointed(core: Text, t: Text) {
    || (',' as int !in core && t == core)
    || exists i :: 0 <= i < |core| && core[i] == ',' as int && ',' as int !in core[..i] && t == core[i := '.' as int]
  }

  /** `t` is `w`, or `w` and `f` around its first dot, and `tail` from the next dot on. */
  ghost predicate Pieces(t: Text, w: Text, f: Text, tail: Text) {
    && '.' as int !in w && '.' as int !in f
    && ((t == w && f == tail == []) || (t == w + ['.' as int] + f + tail && (tail == [] || tail[0] == '.' as int)))
  }

  lemma CutAtDots(t: Text) returns (w: Text, f: Text, tail: Text)
    ensures Pieces(t, w, f, tail)
    ensures Units(t) == Print(Micros(OnlyDigits(w), OnlyDigits(f)))
  {
    hide OnlyDigits, Val, Print, SixOf, Pow10, WholeDigits, FracDigits, FloorDiv, IndexOf;
    var i := IndexOf(t, DOT);
    var rest := t[if i < |t| then i + 1 else i..];
    var k := IndexOf(rest, DOT);
    w, f, tail := t[..i], rest[..k], rest[k..];
    FindsLeast(t, DOT);
    FindsLeast(rest, DOT);
    PartsToMicros(w, f);
  }

  lemma PartsToMicros(w: Text, f: Text)
    ensures Val(WholeDigits(w)) * MILLION + Val(FracDigits(f)) == Micros(OnlyDigits(w), OnlyDigits(f))
  {
    hide OnlyDigits, Val, SixOf, Pow10;
    SixDigits(Val(OnlyDigits(w)), OnlyDigits(f));
    ValZeros([ZERO]);
    ValZeros([]);
  }

  /** Any text that is not blank: white space is dropped at its ends, its first comma is read
      as a dot, and the digits before the first dot and up to the next are those of the number;
      whatever else stands there is passed over. */
  lemma ParseAnyText(s: Text)
      returns (pre: Text, core: Text, post: Text, t: Text, w: Text, f: Text, tail: Text)
    requires !Blank(s)
    ensures s == pre + core + post && Blank(pre) && Blank(post)
    ensures core != [] && !Space(core[0]) && !Space(core[|core| - 1])
    ensures Pointed(core, t) && Pieces(t, w, f, tail)
    ensures ParseStbToUstb(s) == Print(Micros(OnlyDigits(w), OnlyDigits(f)))
  {
    hide Micros, OnlyDigits, Print, Units;
    pre := TrimStartDrops(s);
    post := TrimEndDrops(TrimStart(s));
    core := TrimEnd(TrimStart(s));
    TrimmedAway(s);
    t := ReplaceFirst(core, COMMA, DOT);
    FindsLeast(core, COMMA);
    w, f, tail := CutAtDots(t);
  }

  /** `Micros` is the digits read as one number, moved to millionths and floored. */
  lemma MicrosOfAll(w: Bytes, f: Bytes)
    requires AllDigits(w) && AllDigits(f)
    ensures AllDigits(w + f) && Micros(w, f) == Val(w + f) * MILLION / Pow10(|f|)
  {
    ValConcat(w, f);
  }

  /** A literal without a separator. */
  lemma ParseWhole(pre: Text, w: Bytes, post: Text)
    requires Blank(pre) && Blank(post) && AllDigits(w) && w != []
    ensures ParseStbToUstb(pre + (w + post)) == Print(Val(w) * MILLION)
  {
    hide WholeDigits, FracDigits, Print, TrimStart, TrimEnd, Val;
    TrimsStart(pre, w + post);
    TrimsEnd(w, post);
    FindsFirst(w, COMMA, []);
    FindsFirst(w, DOT, []);
    assert w[..|w|] == w && w[|w|..] == [];
    PartsAreDigits(w, [], []);
    NoFraction();
  }

  lemma NoFraction()
    ensures Val(FracDigits([])) == 0 && Val(FracDigits([] + [])) == 0
  {
    ValZeros(Zeros(6));
    assert [] + Zeros(6) == Zeros(6);
  }

  lemma {:induction false} TrimmedAway(s: Text)
    ensures TrimStart(s) == [] <==> Blank(s)
    ensures Blank(s) <==> TrimEnd(TrimStart(s)) == []
    decreases |s|
  {
    if s != [] && Space(s[0]) {
      TrimmedAway(s[1..]);
      assert Blank(s) <==> Blank(s[1..]) by {
        assert s == [s[0]] + s[1..];
      }
    } else if s != [] {
      KeepsHead(s);
    }
  }

  lemma {:induction false} KeepsHead(s: Text)
    requires s != [] && !Space(s[0])
    ensures TrimEnd(s) != [] && TrimEnd(s)[0] == s[0]
    decreases |s|
  {
    if Space(s[|s| - 1]) {
      KeepsHead(s[..|s| - 1]);
    }
  }

  /** Whatever is typed, the result is empty exactly for blank input, and otherwise the
      decimal of a natural number, which Mint reads as that number up to 256 bits. */
  lemma ParseAlwaysDecimal(h: Ledger.Host, s: Text)
    requires Ledger.Lawful(h)
    ensures ParseStbToUstb(s) == [] <==> Blank(s)
    ensures !Blank(s) ==> exists n: nat :: ParseStbToUstb(s) == Print(n)
                                           && h.parseInt(ParseStbToUstb(s)) == if n < Bank.INT_LIMIT
                                                then Some(n as int) else None
  {
    hide TrimEnd, TrimStart, Blank, WholeDigits, FracDigits, Val;
    TrimmedAway(s);
    var t := ReplaceFirst(TrimEnd(TrimStart(s)), COMMA, DOT);
    if t != [] {
      var n := UnitsValue(t);
      assert h.parseInt(Print(n)) == if n < Bank.INT_LIMIT then Some(n as int) else None;
    }
  }

  lemma UnitsValue(t: Text) returns (n: nat)
    ensures Units(t) == Print(n) != []
  {
    hide WholeDigits, FracDigits, Val, Print;
    var i := IndexOf(t, DOT);
    var rest := t[if i < |t| then i + 1 else i..];
    n := Val(WholeDigits(t[..i])) * MILLION + Val(FracDigits(rest[..IndexOf(rest, DOT)]));
    NeverEmpty(n);
  }

  lemma NeverEmpty(n: int)
    ensures Print(n) != []
  {
  }

  // ---------------------------------------------------------------- formatting

  /** `formatUstb` of an amount that `Number` turned into `num` and whose quotient by 10^6
      came out as `quotient`. */
  function FormatUstb(num: nat, quotient: real): Bytes {
    Print(quotient.Floor) + [DOT] + PadStart(Print(num % MILLION), 6) + SUFFIX
  }

  lemma {:induction false} DigitsFit(n: nat, k: nat)
    requires k >= 1 && n < Pow10(k)
    ensures |Digits(n)| <= k
    decreases k
  {
    if n >= 10 {
      assert k > 1 by { assert Pow10(1) == 10 * Pow10(0); }
      DigitsFit(n / 10, k - 1);
    }
  }

  lemma SixPadded(n: nat)
    requires n < MILLION
    ensures var s := PadStart(Digits(n), 6); |s| == 6 && AllDigits(s) && Val(s) == n && SixOf(s) == s
  {
    Pow10Six();
    DigitsFit(n, 6);
    DigitsSpell(n);
    ValZeros(Zeros(6 - |Digits(n)|));
    ValConcat(Zeros(6 - |Digits(n)|), Digits(n));
    assert Zeros(0) + Digits(n) == Digits(n);
    var s := PadStart(Digits(n), 6);
    assert s[..6] == s;
  }

  /** A display string, before it is trimmed, is already trim and has no comma. */
  lemma DisplayIsTrim(w: Bytes, f: Bytes)
    requires AllDigits(w) && AllDigits(f) && w != []
    ensures var s := w + [DOT] + f + SUFFIX; ReplaceFirst(TrimEnd(TrimStart(s)), COMMA, DOT) == w + [DOT] + (f + SUFFIX)
  {
    var s := w + [DOT] + f + SUFFIX;
    assert s == w + [DOT] + (f + SUFFIX);
    assert s[0] == w[0] && IsDigit(w[0]) && s[|s| - 1] == 66;
    assert COMMA !in SUFFIX && COMMA !in w && COMMA !in f;
    FindsFirst(s, COMMA, []);
  }

  /** The display: the whole part of the quotient, a dot, six digits of the remainder, " STB". */
  lemma DisplayForm(num: nat, q: real) returns (six: Bytes)
    requires num < QUOTIENT_LIMIT && Rounds(num as real / 1000000.0, q)
    ensures |six| == 6 && AllDigits(six) && Val(six) == num % MILLION
    ensures var whole := num / MILLION + if NoCarry(num, q) then 0 else 1;
            FormatUstb(num, q) == Print(whole) + ['.' as int] + six + [' ' as int, 'S' as int, 'T' as int, 'B' as int]
  {
    hide Rounds, Val, Digits;
    QuotientBounds(num, q);
    six := PadStart(Digits(num % MILLION), 6);
    SixPadded(num % MILLION);
  }

  /** What is displayed for `num` parses back to `num`, or to a whole STB more if the quotient
      was rounded up to it. */
  lemma FormatThenParse(num: nat, q: real)
    requires num < QUOTIENT_LIMIT && Rounds(num as real / 1000000.0, q)
    ensures ParseStbToUstb(FormatUstb(num, q)) == Print(if NoCarry(num, q) then num else num + MILLION)
    ensures StaysBelow(num) ==> NoCarry(num, q)
    ensures num < 17_179_869_184_000_000 ==> StaysBelow(num)
  {
    hide Rounds, ReplaceFirst, TrimEnd, TrimStart, Val, Digits, SixOf, PadStart, ParseStbToUstb;
    QuotientBounds(num, q);
    if num < 17_179_869_184_000_000 {
      SmallStaysBelow(num);
    }
    if StaysBelow(num) {
      Stays(num, q);
    }
    hide StaysBelow;
    var whole := if NoCarry(num, q) then num / MILLION else num / MILLION + 1;
    assert q.Floor == whole;
    var w, f := Digits(whole), PadStart(Digits(num % MILLION), 6);
    SixPadded(num % MILLION);
    DigitsSpell(whole);
    DisplayIsTrim(w, f);
    ParseTrimmed(FormatUstb(num, q), w, f, SUFFIX);
  }

  /** Displaying an amount and parsing it gives it back exactly when the amount is a double, as
      all up to 2^53 are, and lacks enough to the next whole STB, as all doubles below
      2^40 * 10^6 do. */
  lemma DisplayRoundTrip(n: nat, num: nat, q: real)
    requires n < QUOTIENT_LIMIT - MILLION
    requires Rounds(n as real, num as real) && Rounds(num as real / 1000000.0, q)
    ensures ParseStbToUstb(FormatUstb(num, q)) == Print(n) <==> IsDouble(n as real) && StaysBelow(n)
    ensures n <= TWO_53 ==> IsDouble(n as real)
    ensures n < 1_099_511_627_776_000_000 && IsDouble(n as real) ==> StaysBelow(n)
  {
    hide ParseStbToUstb, FormatUstb, Digits, Val, IsDouble, Rounds, StaysBelow;
    FirstNonDouble(n);
    NumberOf(n, num);
    FormatThenParse(num, q);
    if IsDouble(n as real) {
      StaysIff(n, q);
      if n < 1_099_511_627_776_000_000 {
        DoubleStaysBelow(n);
      }
    }
    DigitsSpell(if NoCarry(num, q) then num else num + MILLION);
    DigitsSpell(n);
  }
}
