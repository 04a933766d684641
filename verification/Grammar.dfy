/** Whole fields on the wire (sections "Message Structure" and "Groups" of the Protocol
    Buffers encoding) and the generated skipper, which steps over one of them. */
module Grammar {
  import Bits
  import opened Wire

  // ---------------------------------------------------------------- the grammar

  /** One field: a tag and its payload, or a group of fields between a start tag and an
      end tag. Tags and lengths are kept as the varint bytes that spell them. */
  datatype Field =
    | Plain(tag: Bytes, payload: Bytes)
    | Group(open: Bytes, inner: Fields, close: Bytes)

  datatype Fields = Nil | Cons(head: Field, tail: Fields)

  predicate IsVarint(s: Bytes) {
    Varint(s).Ok? && Varint(s).size == |s|
  }

  /** The low three bits of a tag. */
  function WireType(tag: Bytes): nat
    requires IsVarint(tag)
  {
    Varint(tag).value % 8
  }

  /** A length followed by that many bytes; the length is a non-negative int64. */
  predicate IsDelimited(s: Bytes) {
    Varint(s).Ok? && Varint(s).value < TWO_63 && |s| == Varint(s).size + Varint(s).value
  }

  predicate IsPayload(wireType: nat, s: Bytes) {
    match wireType
    case 0 => IsVarint(s)
    case 1 => |s| == 8
    case 2 => IsDelimited(s)
    case 5 => |s| == 4
    case _ => false
  }

  /** The field numbers of `open` and `close` play no part: the skipper does not match them. */
  predicate WellFormed(f: Field) {
    match f
    case Plain(tag, payload) => IsVarint(tag) && IsPayload(WireType(tag), payload)
    case Group(open, inner, close) =>
      && IsVarint(open) && WireType(open) == 3
      && AllWellFormed(inner)
      && IsVarint(close) && WireType(close) == 4
  }

  predicate AllWellFormed(fs: Fields) {
    fs.Cons? ==> WellFormed(fs.head) && AllWellFormed(fs.tail)
  }

  function Flatten(f: Field): Bytes {
    match f
    case Plain(tag, payload) => tag + payload
    case Group(open, inner, close) => open + FlattenAll(inner) + close
  }

  function FlattenAll(fs: Fields): Bytes {
    if fs.Nil? then [] else Flatten(fs.head) + FlattenAll(fs.tail)
  }

  // ---------------------------------------------------------------- recursive scanning

  /** Where a scan ends, possibly past the end of the input, or why it fails. */
  datatype Scan = At(pos: nat) | Bad(error: Error)

  /** Index arithmetic on a signed 64-bit int: a wrapped sum is negative. */
  function Advance(j: nat, n: nat): Scan {
    if j + n >= TWO_63 then Bad(InvalidLength) else At(j + n)
  }

  /** Scans the payload at `j` of a field with the given wire type. */
  function Body(d: Bytes, wireType: nat, j: nat): (r: Scan)
    requires j <= |d|
    ensures r.At? ==> j <= r.pos
    ensures r.Bad? ==> r.error != NoError
    decreases |d| - j, 1
  {
    match wireType
    case 0 => (match Varint(d[j..]) case Ok(_, n) => At(j + n) case Fail(e) => Bad(e))
    case 1 => Advance(j, 8)
    case 2 => (match Varint(d[j..])
               case Ok(v, n) => if v >= TWO_63 then Bad(InvalidLength) else Advance(j + n, v)
               case Fail(e) => Bad(e))
    case 3 => GroupRest(d, j)
    case 4 => Bad(UnexpectedEndOfGroup)
    case 5 => Advance(j, 4)
    case _ => Bad(IllegalWireType(wireType))
  }

  /** Scans the rest of a group from `j`, up to and including its end tag. */
  function GroupRest(d: Bytes, j: nat): (r: Scan)
    ensures r.At? ==> j < r.pos <= |d|
    ensures r.Bad? ==> r.error != NoError
    decreases |d| - j, 0
  {
    if j >= |d| then Bad(UnexpectedEOF)
    else match Varint(d[j..])
      case Fail(e) => Bad(e)
      case Ok(tag, n) =>
        if tag % 8 == 4 then At(j + n)
        else match Body(d, tag % 8, j + n)
          case Bad(e) => Bad(e)
          case At(p) => GroupRest(d, p)
  }

  /** Scans one field at the front of `d`. */
  function FieldEnd(d: Bytes): (r: Scan)
    ensures r.At? ==> r.pos >= 1
    ensures r.Bad? ==> r.error != NoError
  {
    match Varint(d)
    case Fail(e) => Bad(e)
    case Ok(tag, n) => Body(d, tag % 8, n)
  }

  // ---------------------------------------------------------------- scanning finds a field

  /** The bytes of a varint at `i` spell the same varint on their own. */
  lemma TokenAt(d: Bytes, i: nat) returns (token: Bytes)
    requires i <= |d| && Varint(d[i..]).Ok?
    ensures token == d[i..i + Varint(d[i..]).size]
    ensures IsVarint(token) && Varint(token) == Varint(d[i..])
  {
    token := d[i..i + Varint(d[i..]).size];
    VarintLocal(d[i..], token);
  }

  lemma SliceJoin(d: Bytes, i: nat, j: nat, k: nat)
    requires i <= j <= k <= |d|
    ensures d[i..k] == d[i..j] + d[j..k]
  {
  }

  lemma {:induction false} BodyGivesField(d: Bytes, i: nat) returns (f: Field)
    requires i <= |d| && Varint(d[i..]).Ok?
    requires var tag := Varint(d[i..]);
             var r := Body(d, tag.value % 8, i + tag.size); r.At? && r.pos <= |d|
    ensures var tag := Varint(d[i..]);
            WellFormed(f) && Flatten(f) == d[i..Body(d, tag.value % 8, i + tag.size).pos]
    decreases |d| - i, 0
  {
    var tag := Varint(d[i..]);
    if tag.value % 8 == 3 {
      var inner, close := GroupGivesFields(d, i + tag.size);
      f := GroupField(d, i, inner, close);
    } else {
      f := PlainField(d, i);
    }
  }

  lemma GroupField(d: Bytes, i: nat, inner: Fields, close: Bytes) returns (f: Field)
    requires i <= |d| && Varint(d[i..]).Ok? && Varint(d[i..]).value % 8 == 3
    requires AllWellFormed(inner) && IsVarint(close) && WireType(close) == 4
    requires var j := i + Varint(d[i..]).size;
             GroupRest(d, j).At? && FlattenAll(inner) + close == d[j..GroupRest(d, j).pos]
    ensures WellFormed(f) && Flatten(f) == d[i..GroupRest(d, i + Varint(d[i..]).size).pos]
  {
    hide Varint;
    var open := TokenAt(d, i);
    f := Group(open, inner, close);
    SliceJoin(d, i, i + |open|, GroupRest(d, i + |open|).pos);
    Associate(open, FlattenAll(inner), close);
  }

  lemma PlainField(d: Bytes, i: nat) returns (f: Field)
    requires i <= |d| && Varint(d[i..]).Ok? && Varint(d[i..]).value % 8 != 3
    requires var tag := Varint(d[i..]);
             var r := Body(d, tag.value % 8, i + tag.size); r.At? && r.pos <= |d|
    ensures var tag := Varint(d[i..]);
            WellFormed(f) && Flatten(f) == d[i..Body(d, tag.value % 8, i + tag.size).pos]
  {
    var tag := TokenAt(d, i);
    var j := i + |tag|;
    var end := Body(d, WireType(tag), j).pos;
    if WireType(tag) == 0 || WireType(tag) == 2 {
      var k := j + Varint(d[j..]).size;
      assert d[j..end][..k - j] == d[j..k] == d[j..][..k - j];
      VarintLocal(d[j..], d[j..end]);
    }
    f := Plain(tag, d[j..end]);
    SliceJoin(d, i, j, end);
  }

  lemma {:induction false} GroupGivesFields(d: Bytes, j: nat) returns (fs: Fields, close: Bytes)
    requires GroupRest(d, j).At?
    ensures AllWellFormed(fs) && IsVarint(close) && WireType(close) == 4
    ensures FlattenAll(fs) + close == d[j..GroupRest(d, j).pos]
    decreases |d| - j, 1
  {
    var tag := Varint(d[j..]);
    if tag.value % 8 == 4 {
      fs := Nil;
      close := TokenAt(d, j);
    } else {
      var p := Body(d, tag.value % 8, j + tag.size).pos;
      var f := BodyGivesField(d, j);
      var rest;
      rest, close := GroupGivesFields(d, p);
      fs := Cons(f, rest);
      SliceJoin(d, j, p, GroupRest(d, p).pos);
      Associate(Flatten(f), FlattenAll(rest), close);
    }
  }

  lemma Associate(a: Bytes, b: Bytes, c: Bytes)
    ensures a + b + c == a + (b + c)
  {
  }

  // ---------------------------------------------------------------- every field is scanned

  /** The bytes of `d` from `i` on start with `s`. */
  predicate Holds(d: Bytes, i: nat, s: Bytes) {
    i + |s| <= |d| && d[i..i + |s|] == s
  }

  lemma HoldsBoth(d: Bytes, i: nat, s: Bytes, t: Bytes)
    requires Holds(d, i, s + t)
    ensures Holds(d, i, s) && Holds(d, i + |s|, t)
  {
    assert d[i..i + |s|] == (s + t)[..|s|];
    assert d[i + |s|..i + |s| + |t|] == (s + t)[|s|..];
  }

  lemma VarintReads(d: Bytes, i: nat, s: Bytes)
    requires Holds(d, i, s) && Varint(s).Ok?
    ensures i <= |d| && Varint(d[i..]) == Varint(s)
  {
    assert d[i..][..|s|] == s;
    VarintLocal(s, d[i..]);
  }

  /** One step of the scan: the body behind a tag in place. */
  ghost predicate FieldScans(d: Bytes, i: nat, end: nat) {
    && i <= |d| && Varint(d[i..]).Ok?
    && Varint(d[i..]).value % 8 != 4
    && Body(d, Varint(d[i..]).value % 8, i + Varint(d[i..]).size) == At(end)
  }

  lemma BehindTag(d: Bytes, i: nat, tag: Bytes, end: nat)
    requires IsVarint(tag) && Holds(d, i, tag) && WireType(tag) != 4
    requires Body(d, WireType(tag), i + |tag|) == At(end)
    ensures FieldScans(d, i, end)
  {
    VarintReads(d, i, tag);
  }

  lemma PayloadIsScanned(d: Bytes, j: nat, wireType: nat, payload: Bytes)
    requires |d| < TWO_63 && IsPayload(wireType, payload) && Holds(d, j, payload)
    ensures j <= |d| && Body(d, wireType, j) == At(j + |payload|)
  {
    if wireType == 0 || wireType == 2 {
      VarintReads(d, j, payload);
    }
  }

  lemma PlainIsScanned(d: Bytes, i: nat, tag: Bytes, payload: Bytes)
    requires |d| < TWO_63 && IsVarint(tag) && IsPayload(WireType(tag), payload)
    requires Holds(d, i, tag) && Holds(d, i + |tag|, payload)
    ensures FieldScans(d, i, i + |tag| + |payload|)
  {
    PayloadIsScanned(d, i + |tag|, WireType(tag), payload);
    BehindTag(d, i, tag, i + |tag| + |payload|);
  }

  lemma GroupOpens(d: Bytes, i: nat, open: Bytes, end: nat)
    requires IsVarint(open) && WireType(open) == 3 && Holds(d, i, open)
    requires GroupRest(d, i + |open|) == At(end)
    ensures FieldScans(d, i, end)
  {
    BehindTag(d, i, open, end);
  }

  lemma GroupEnds(d: Bytes, j: nat, close: Bytes)
    requires IsVarint(close) && WireType(close) == 4 && Holds(d, j, close)
    ensures GroupRest(d, j) == At(j + |close|)
  {
    VarintReads(d, j, close);
  }

  lemma GroupGoesOn(d: Bytes, j: nat, p: nat)
    requires FieldScans(d, j, p)
    ensures GroupRest(d, j) == GroupRest(d, p)
  {
  }

  lemma {:induction false} FieldIsScanned(d: Bytes, i: nat, f: Field)
    requires |d| < TWO_63 && WellFormed(f) && Holds(d, i, Flatten(f))
    ensures FieldScans(d, i, i + |Flatten(f)|)
    decreases f, 1
  {
    hide FieldScans, Varint, Body, GroupRest, Holds;
    match f
    case Plain(tag, payload) =>
      HoldsBoth(d, i, tag, payload);
      PlainIsScanned(d, i, tag, payload);
    case Group(open, inner, close) =>
      Associate(open, FlattenAll(inner), close);
      HoldsBoth(d, i, open, FlattenAll(inner) + close);
      GroupIsScanned(d, i + |open|, inner, close);
      GroupOpens(d, i, open, i + |Flatten(f)|);
  }

  lemma {:induction false} GroupIsScanned(d: Bytes, j: nat, fs: Fields, close: Bytes)
    requires |d| < TWO_63 && AllWellFormed(fs) && IsVarint(close) && WireType(close) == 4
    requires Holds(d, j, FlattenAll(fs) + close)
    ensures GroupRest(d, j) == At(j + |FlattenAll(fs)| + |close|)
    decreases fs, 0
  {
    hide FieldScans, Varint, Body, GroupRest, Holds;
    match fs
    case Nil =>
      assert FlattenAll(fs) + close == close;
      GroupEnds(d, j, close);
    case Cons(f, rest) =>
      Associate(Flatten(f), FlattenAll(rest), close);
      HoldsBoth(d, j, Flatten(f), FlattenAll(rest) + close);
      FieldIsScanned(d, j, f);
      GroupGoesOn(d, j, j + |Flatten(f)|);
      GroupIsScanned(d, j + |Flatten(f)|, rest, close);
  }

  /** The scan ends at `n`, inside the input, exactly when the first `n` bytes are one
      field of the grammar. */
  lemma ScanRefinesGrammar(d: Bytes, n: nat)
    requires |d| < TWO_63 && n <= |d|
    ensures FieldEnd(d) == At(n) <==> exists f :: WellFormed(f) && Flatten(f) == d[..n]
  {
    assert d[0..] == d;
    if FieldEnd(d) == At(n) {
      var f := BodyGivesField(d, 0);
      assert d[0..n] == d[..n];
    }
    forall f | WellFormed(f) && Flatten(f) == d[..n]
      ensures FieldEnd(d) == At(n)
    {
      FieldIsScanned(d, 0, f);
    }
  }

  /** Why a field is not skipped: an unreadable tag, an end tag without a group, an unknown wire
      type, or a length that is negative or points past 63 bits. */
  lemma SkipErrors(d: Bytes)
    ensures Varint(d).Fail? ==> FieldEnd(d) == Bad(Varint(d).error)
    ensures Varint(d).Ok? ==>
              var wireType, j := Varint(d).value % 8, Varint(d).size;
              && (wireType == 4 ==> FieldEnd(d) == Bad(UnexpectedEndOfGroup))
              && (wireType == 6 || wireType == 7 ==> FieldEnd(d) == Bad(IllegalWireType(wireType)))
              && (wireType == 1 && j + 8 < TWO_63 ==> FieldEnd(d) == At(j + 8))
              && (wireType == 5 && j + 4 < TWO_63 ==> FieldEnd(d) == At(j + 4))
              && (wireType in {0, 2} && Varint(d[j..]).Fail? ==> FieldEnd(d) == Bad(Varint(d[j..]).error))
              && (wireType == 2 && Varint(d[j..]).Ok? ==>
                    var length, k := Varint(d[j..]).value, j + Varint(d[j..]).size;
                    FieldEnd(d) ==
                    if length < TWO_63 && k + length < TWO_63 then At(k + length) else Bad(InvalidLength))
  {
  }

  /** A group whose fields are all there but whose end tag is missing is cut short. */
  lemma OpenGroupIsCutShort(open: Bytes, fs: Fields)
    requires IsVarint(open) && WireType(open) == 3 && AllWellFormed(fs) && |open + FlattenAll(fs)| < TWO_63
    ensures FieldEnd(open + FlattenAll(fs)) == Bad(UnexpectedEOF)
  {
    var d := open + FlattenAll(fs);
    assert d[0..] == d && Holds(d, 0, open);
    VarintReads(d, 0, open);
    assert d[|open|..|open| + |FlattenAll(fs)|] == FlattenAll(fs);
    OpenGroup(d, |open|, fs);
  }

  lemma {:induction false} OpenGroup(d: Bytes, j: nat, fs: Fields)
    requires |d| < TWO_63 && AllWellFormed(fs) && j + |FlattenAll(fs)| == |d| && Holds(d, j, FlattenAll(fs))
    ensures GroupRest(d, j) == Bad(UnexpectedEOF)
    decreases fs
  {
    hide Varint, Body, FieldScans, Holds;
    if fs.Cons? {
      HoldsBoth(d, j, Flatten(fs.head), FlattenAll(fs.tail));
      FieldIsScanned(d, j, fs.head);
      GroupGoesOn(d, j, j + |Flatten(fs.head)|);
      OpenGroup(d, j + |Flatten(fs.head)|, fs.tail);
    }
  }

  /** A field is recognised by its own bytes, whatever follows it. */
  lemma FieldEndLocal(d: Bytes, d': Bytes)
    requires |d| < TWO_63 && |d'| < TWO_63
    requires var r := FieldEnd(d); r.At? && r.pos <= |d| && r.pos <= |d'| && d[..r.pos] == d'[..r.pos]
    ensures FieldEnd(d') == FieldEnd(d)
  {
    ScanRefinesGrammar(d, FieldEnd(d).pos);
    ScanRefinesGrammar(d', FieldEnd(d).pos);
  }

  // ---------------------------------------------------------------- the flat skipper

  /** Scans the ends of `depth` open groups. */
  ghost function CloseGroups(d: Bytes, j: nat, depth: nat): Scan
    decreases depth
  {
    if depth == 0 then At(j)
    else match GroupRest(d, j)
      case Bad(e) => Bad(e)
      case At(p) => CloseGroups(d, p, depth - 1)
  }

  /** One turn of the skip loop inside `depth` groups. */
  lemma CloseGroupsStep(d: Bytes, j: nat, depth: nat)
    requires depth > 0
    ensures j >= |d| ==> CloseGroups(d, j, depth) == Bad(UnexpectedEOF)
    ensures j < |d| ==>
              match Varint(d[j..])
              case Fail(e) => CloseGroups(d, j, depth) == Bad(e)
              case Ok(tag, n) =>
                if tag % 8 == 3 then CloseGroups(d, j, depth) == CloseGroups(d, j + n, depth + 1)
                else if tag % 8 == 4 then CloseGroups(d, j, depth) == CloseGroups(d, j + n, depth - 1)
                else match Body(d, tag % 8, j + n)
                  case Bad(e) => CloseGroups(d, j, depth) == Bad(e)
                  case At(p) => CloseGroups(d, j, depth) == CloseGroups(d, p, depth)
  {
    if j < |d| && Varint(d[j..]).Ok? && Varint(d[j..]).value % 8 == 3 {
      var k := j + Varint(d[j..]).size;
      if GroupRest(d, k).At? {
        var p := GroupRest(d, k).pos;
        assert CloseGroups(d, k, depth + 1) == CloseGroups(d, p, depth);
        assert GroupRest(d, j) == GroupRest(d, p);
      }
    }
  }

  /** What the skip loop is still to find at index `j` inside `depth` groups; at depth 0
      it has not started. */
  ghost function Remaining(d: Bytes, j: nat, depth: nat): Scan
    requires j <= |d| || depth > 0
  {
    if depth > 0 then CloseGroups(d, j, depth)
    else match Varint(d[j..])
      case Fail(e) => Bad(e)
      case Ok(tag, n) => Body(d, tag % 8, j + n)
  }

  /** One turn of the skip loop that reads a tag of the given wire type ending at `k`. */
  lemma RemainingStep(d: Bytes, j: nat, depth: nat, wireType: nat, k: nat)
    requires j < |d| && Varint(d[j..]).Ok?
    requires wireType == Varint(d[j..]).value % 8 && k == j + Varint(d[j..]).size
    ensures wireType == 3 ==> Remaining(d, j, depth) == Remaining(d, k, depth + 1)
    ensures wireType == 4 && depth == 0 ==> Remaining(d, j, depth) == Bad(UnexpectedEndOfGroup)
    ensures wireType == 4 && depth == 1 ==> Remaining(d, j, depth) == At(k)
    ensures wireType == 4 && depth > 1 ==> Remaining(d, j, depth) == Remaining(d, k, depth - 1)
    ensures wireType != 3 && wireType != 4 && (Body(d, wireType, k).Bad? || depth == 0) ==>
              Remaining(d, j, depth) == Body(d, wireType, k)
    ensures wireType != 3 && wireType != 4 && Body(d, wireType, k).At? && depth > 0 ==>
              Remaining(d, j, depth) == Remaining(d, Body(d, wireType, k).pos, depth)
  {
    if depth > 0 {
      CloseGroupsStep(d, j, depth);
    } else if GroupRest(d, k).At? {
      assert CloseGroups(d, GroupRest(d, k).pos, 0) == GroupRest(d, k);
    }
  }

  /** A sum of two non-negative ints as Go computes it. */
  function Wrap(x: nat): int
    requires x < TWO_64
  {
    if x < TWO_63 then x else x - TWO_64
  }

  /** The switch of the skip loop for the wire types that are not about groups. The index
      may wrap to a negative number, which the loop tests for. */
  method SkipPayload(d: Bytes, wireType: nat, start: nat) returns (index: int, err: Error)
    requires start <= |d| < TWO_63 && wireType != 3 && wireType != 4
    ensures match Body(d, wireType, start)
            case At(p) => err == NoError && index == p
            case Bad(e) => err == e || (err == NoError && index < 0 && e == InvalidLength)
  {
    hide Bits.Value;
    index, err := start, NoError;
    match wireType
    case 0 =>
      var ignored;
      ignored, index, err := ReadVarint(d, index);
    case 1 => index := Wrap(index + 8);
    case 2 =>
      var length;
      length, index, err := ReadVarint(d, index);
      if err == NoError {
        if Wrap(Bits.Value(length)) < 0 {
          return 0, InvalidLength;
        }
        index := Wrap(index + Bits.Value(length));
      }
    case 5 => index := Wrap(index + 4);
    case _ => return 0, IllegalWireType(wireType);
  }

  /** The generated skip function: a flat loop that counts open groups. */
  method SkipField(d: Bytes) returns (n: nat, err: Error)
    requires |d| < TWO_63
    ensures FieldEnd(d).At? ==> err == NoError && n == FieldEnd(d).pos
    ensures FieldEnd(d).Bad? ==> err == FieldEnd(d).error
  {
    hide Bits.Value, Bits.TagType;
    var index: int := 0;
    var depth := 0;
    assert d[0..] == d;
    while index < |d|
      invariant 0 <= depth <= index
      invariant depth == 0 ==> index == 0
      invariant FieldEnd(d) == Remaining(d, index, depth)
      decreases |d| - index
    {
      var wire;
      ghost var start := index;
      wire, index, err := ReadVarint(d, index);
      if err != NoError {
        return 0, err;
      }
      var wireType := Bits.TagType(wire);
      RemainingStep(d, start, depth, wireType, index);
      if wireType == 3 {
        depth := depth + 1;
      } else if wireType == 4 {
        if depth == 0 {
          return 0, UnexpectedEndOfGroup;
        }
        depth := depth - 1;
      } else {
        index, err := SkipPayload(d, wireType, index);
        if err != NoError {
          return 0, err;
        }
      }
      if index < 0 {
        return 0, InvalidLength;
      }
      if depth == 0 {
        return index, NoError;
      }
    }
    return 0, UnexpectedEOF;
  }
}
