/** The shape shared by all generated `Unmarshal` functions: a loop over fields that stores
    declared ones in the target and steps over the others. The laws here hold for every
    message type, whatever its fields. */
module Decoding {
  import opened Wire
  import opened Grammar

  /** How a message type treats a field number. */
  datatype Kind = Unknown | Scalar | Delimited

  datatype Payload = Number(value: nat) | Text(bytes: Bytes)

  /** The target after a decode, complete or cut short by an error. */
  datatype Outcome<M> = Outcome(msg: M, err: Error)

  /** A message type: the kind of each field number and the effect of one field. */
  datatype Codec<!M> = Codec(kind: int -> Kind, put: (int, Payload, M) -> Outcome<M>)

  /** The conversion `int32(x)`: the number of 32 bits that x is congruent to. */
  function Int32(x: nat): (r: int)
    ensures -TWO_31 <= r < TWO_31 && (x - r) % 0x1_0000_0000 == 0
  {
    if x % TWO_32 < TWO_31 then x % TWO_32 else x % TWO_32 - TWO_32
  }

  /** A declared field's payload and the index after it. */
  datatype Taken = Took(payload: Payload, next: nat) | NotTaken(error: Error)

  /** A length-delimited payload at index `i`, with the decoder's three length checks. */
  function TakeText(d: Bytes, i: nat): (r: Taken)
    requires i <= |d|
    ensures r.Took? ==> i < r.next <= |d| && r.payload.Text?
    ensures r.NotTaken? ==> r.error != NoError
  {
    match Varint(d[i..])
    case Fail(e) => NotTaken(e)
    case Ok(v, n) =>
      if v >= TWO_63 || i + n + v >= TWO_63 then NotTaken(InvalidLength)
      else if i + n + v > |d| then NotTaken(UnexpectedEOF)
      else Took(Text(d[i + n..i + n + v]), i + n + v)
  }

  function TakeNumber(d: Bytes, i: nat): (r: Taken)
    requires i <= |d|
    ensures r.Took? ==> i < r.next <= |d| && r.payload.Number?
    ensures r.NotTaken? ==> r.error != NoError
  {
    match Varint(d[i..])
    case Fail(e) => NotTaken(e)
    case Ok(v, n) => Took(Number(v), i + n)
  }

  /** The default branch: the skipper runs on the rest of the input. */
  function SkipAt(d: Bytes, i: nat): (r: Scan)
    requires i <= |d|
    ensures r.At? ==> i < r.pos <= |d|
    ensures r.Bad? ==> r.error != NoError
  {
    match FieldEnd(d[i..])
    case Bad(e) => Bad(e)
    case At(n) =>
      if i + n >= TWO_63 then Bad(InvalidLength)
      else if i + n > |d| then Bad(UnexpectedEOF)
      else At(i + n)
  }

  /** One turn of the loop: the next index and target, or the error it returns. */
  datatype Turn<M> = More(next: nat, msg: M) | Stop(msg: M, err: Error)

  function Stored<M>(taken: Taken, number: int, c: Codec<M>, m: M): Turn<M> {
    match taken
    case NotTaken(e) => Stop(m, e)
    case Took(payload, next) =>
      var out := c.put(number, payload, m);
      if out.err == NoError then More(next, out.msg) else Stop(out.msg, out.err)
  }

  function Step<M>(c: Codec<M>, d: Bytes, i: nat, m: M): (r: Turn<M>)
    requires i < |d|
    ensures r.More? ==> i < r.next <= |d|
    ensures r.Stop? ==> r.err != NoError
  {
    match Varint(d[i..])
    case Fail(e) => Stop(m, e)
    case Ok(wire, n) =>
      var number, wireType := Int32(wire / 8), wire % 8;
      if wireType == 4 then Stop(m, EndGroupForNonGroup)
      else if number <= 0 then Stop(m, IllegalTag(number))
      else match c.kind(number)
        case Scalar =>
          if wireType != 0 then Stop(m, WrongWireType(wireType, number))
          else Stored(TakeNumber(d, i + n), number, c, m)
        case Delimited =>
          if wireType != 2 then Stop(m, WrongWireType(wireType, number))
          else Stored(TakeText(d, i + n), number, c, m)
        case Unknown =>
          match SkipAt(d, i)
          case Bad(e) => Stop(m, e)
          case At(next) => More(next, m)
  }

  /** The whole loop from index `i`: total, and successful only at the end of the input. */
  function DecodeFrom<M>(c: Codec<M>, d: Bytes, i: nat, m: M): Outcome<M>
    decreases |d| - i
  {
    if i >= |d| then Outcome(m, NoError)
    else match Step(c, d, i, m)
      case Stop(m', e) => Outcome(m', e)
      case More(next, m') => DecodeFrom(c, d, next, m')
  }

  /** `Unmarshal`: the target is not reset first. */
  function Decode<M>(c: Codec<M>, d: Bytes, m: M): Outcome<M> {
    DecodeFrom(c, d, 0, m)
  }

  /** Why a turn is refused, the earlier reason first. */
  lemma StepErrors<M>(c: Codec<M>, d: Bytes, i: nat, m: M)
    requires i < |d|
    ensures Varint(d[i..]).Fail? ==> Step(c, d, i, m) == Stop(m, Varint(d[i..]).error)
    ensures Varint(d[i..]).Ok? ==>
              var tag, wireType := Varint(d[i..]).value, Varint(d[i..]).value % 8;
              var number, j := Int32(tag / 8), i + Varint(d[i..]).size;
              && (wireType == 4 ==> Step(c, d, i, m) == Stop(m, EndGroupForNonGroup))
              && (wireType != 4 && number <= 0 ==> Step(c, d, i, m) == Stop(m, IllegalTag(number)))
              && (wireType != 4 && number > 0 ==>
                    && (c.kind(number) == Scalar && wireType != 0 ==>
                          Step(c, d, i, m) == Stop(m, WrongWireType(wireType, number)))
                    && (c.kind(number) == Delimited && wireType != 2 ==>
                          Step(c, d, i, m) == Stop(m, WrongWireType(wireType, number)))
                    && (c.kind(number) == Scalar && wireType == 0 && Varint(d[j..]).Fail? ==>
                          Step(c, d, i, m) == Stop(m, Varint(d[j..]).error))
                    && (c.kind(number) == Delimited && wireType == 2 && Varint(d[j..]).Fail? ==>
                          Step(c, d, i, m) == Stop(m, Varint(d[j..]).error)))
  {
  }

  /** Why a length is refused: it is negative as an int, or the end index is, or that is past the
      input. */
  lemma LengthErrors<M>(c: Codec<M>, d: Bytes, i: nat, m: M)
    requires i < |d| && Varint(d[i..]).Ok? && Varint(d[i..]).value % 8 == 2
    requires var number := Int32(Varint(d[i..]).value / 8); number > 0 && c.kind(number) == Delimited
    requires Varint(d[i + Varint(d[i..]).size..]).Ok?
    ensures var j := i + Varint(d[i..]).size;
            var length, k := Varint(d[j..]).value, j + Varint(d[j..]).size;
            && (length >= TWO_63 || k + length >= TWO_63 ==> Step(c, d, i, m) == Stop(m, InvalidLength))
            && (length < TWO_63 && |d| < k + length < TWO_63 ==> Step(c, d, i, m) == Stop(m, UnexpectedEOF))
  {
  }

  /** What the loop does at index `i`, one turn at a time. */
  lemma LoopTurn<M>(c: Codec<M>, d: Bytes, i: nat, m: M)
    ensures i >= |d| ==> DecodeFrom(c, d, i, m) == Outcome(m, NoError)
    ensures i < |d| ==> match Step(c, d, i, m)
                        case Stop(m', e) => DecodeFrom(c, d, i, m) == Outcome(m', e)
                        case More(next, m') => DecodeFrom(c, d, i, m) == DecodeFrom(c, d, next, m')
  {
  }

  // ---------------------------------------------------------------- a turn is local

  /** Reading at `i` sees the same bytes in any input that agrees up to `p`. */
  lemma ReadLocal(d: Bytes, d': Bytes, i: nat, p: nat)
    requires i <= p <= |d| && p <= |d'| && d'[..p] == d[..p]
    requires Varint(d[i..]).Ok? && i + Varint(d[i..]).size <= p
    ensures Varint(d'[i..]) == Varint(d[i..])
  {
    var n := Varint(d[i..]).size;
    assert d'[i..][..n] == d'[..p][i..i + n] == d[..p][i..i + n] == d[i..][..n];
    VarintLocal(d[i..], d'[i..]);
  }

  lemma TakeTextLocal(d: Bytes, d': Bytes, i: nat)
    requires i <= |d|
    requires var r := TakeText(d, i); r.Took? && r.next <= |d'| && d'[..r.next] == d[..r.next]
    ensures TakeText(d', i) == TakeText(d, i)
  {
    var p := TakeText(d, i).next;
    ReadLocal(d, d', i, p);
    var j := i + Varint(d[i..]).size;
    assert d'[j..p] == d'[..p][j..p] == d[..p][j..p] == d[j..p];
  }

  lemma TakeNumberLocal(d: Bytes, d': Bytes, i: nat)
    requires i <= |d|
    requires var r := TakeNumber(d, i); r.Took? && r.next <= |d'| && d'[..r.next] == d[..r.next]
    ensures TakeNumber(d', i) == TakeNumber(d, i)
  {
    ReadLocal(d, d', i, TakeNumber(d, i).next);
  }

  lemma SkipLocal(d: Bytes, d': Bytes, i: nat)
    requires i <= |d| && |d| < TWO_63 && |d'| < TWO_63
    requires var r := SkipAt(d, i); r.At? && r.pos <= |d'| && d'[..r.pos] == d[..r.pos]
    ensures SkipAt(d', i) == SkipAt(d, i)
  {
    var p := SkipAt(d, i).pos;
    assert d'[i..][..p - i] == d'[..p][i..] == d[..p][i..] == d[i..][..p - i];
    FieldEndLocal(d[i..], d'[i..]);
  }

  /** A successful turn looks only at the bytes it consumes. */
  lemma StepLocal<M>(c: Codec<M>, d: Bytes, d': Bytes, i: nat, m: M)
    requires i < |d| && |d| < TWO_63 && |d'| < TWO_63
    requires var r := Step(c, d, i, m); r.More? && r.next <= |d'| && d'[..r.next] == d[..r.next]
    ensures i < |d'| && Step(c, d', i, m) == Step(c, d, i, m)
  {
    hide Varint, FieldEnd;
    var p := Step(c, d, i, m).next;
    var j := i + Varint(d[i..]).size;
    match c.kind(Int32(Varint(d[i..]).value / 8))
    case Unknown =>
      FieldEndCoversTag(d[i..]);
      ReadLocal(d, d', i, p);
      SkipLocal(d, d', i);
    case Scalar =>
      ReadLocal(d, d', i, p);
      TakeNumberLocal(d, d', j);
    case Delimited =>
      ReadLocal(d, d', i, p);
      TakeTextLocal(d, d', j);
  }

  lemma FieldEndCoversTag(d: Bytes)
    requires FieldEnd(d).At?
    ensures Varint(d).Ok? && Varint(d).size <= FieldEnd(d).pos
  {
  }

  // ---------------------------------------------------------------- a turn can be shifted

  /** Equal verdicts, except that the two checks on a length that points past the input may
      trade places: which of them fires first depends on the absolute index. */
  predicate SameVerdict(e: Error, e': Error) {
    || e == e'
    || (e in {InvalidLength, UnexpectedEOF} && e' in {InvalidLength, UnexpectedEOF})
  }

  predicate Agree<M(==)>(r: Outcome<M>, r': Outcome<M>) {
    r.msg == r'.msg && SameVerdict(r.err, r'.err)
  }

  ghost predicate Shifted<M>(r: Turn<M>, r': Turn<M>, offset: nat) {
    match r
    case More(next, m) => r' == More(offset + next, m)
    case Stop(m, e) => r'.Stop? && r'.msg == m && SameVerdict(e, r'.err)
  }

  lemma ShiftedRest(a: Bytes, b: Bytes, j: nat)
    requires j <= |b|
    ensures (a + b)[|a| + j..] == b[j..]
  {
  }

  lemma TakeTextShift(a: Bytes, b: Bytes, j: nat)
    requires j <= |b| && |a + b| < TWO_63
    ensures match TakeText(b, j)
            case Took(p, next) => TakeText(a + b, |a| + j) == Took(p, |a| + next)
            case NotTaken(e) => TakeText(a + b, |a| + j).NotTaken? && SameVerdict(e, TakeText(a + b, |a| + j).error)
  {
    ShiftedRest(a, b, j);
    if TakeText(b, j).Took? {
      var k := j + Varint(b[j..]).size;
      assert (a + b)[|a| + k..|a| + TakeText(b, j).next] == b[k..TakeText(b, j).next];
    }
  }

  lemma SkipShift(a: Bytes, b: Bytes, i: nat)
    requires i <= |b| && |a + b| < TWO_63
    ensures match SkipAt(b, i)
            case At(next) => SkipAt(a + b, |a| + i) == At(|a| + next)
            case Bad(e) => SkipAt(a + b, |a| + i).Bad? && SameVerdict(e, SkipAt(a + b, |a| + i).error)
  {
    ShiftedRest(a, b, i);
  }

  lemma StepShift<M>(c: Codec<M>, a: Bytes, b: Bytes, i: nat, m: M)
    requires i < |b| && |a + b| < TWO_63
    ensures Shifted(Step(c, b, i, m), Step(c, a + b, |a| + i, m), |a|)
  {
    hide Varint, FieldEnd, TakeText;
    ShiftedRest(a, b, i);
    if Varint(b[i..]).Ok? {
      var j := i + Varint(b[i..]).size;
      match c.kind(Int32(Varint(b[i..]).value / 8))
      case Unknown => SkipShift(a, b, i);
      case Scalar => ShiftedRest(a, b, j);
      case Delimited => TakeTextShift(a, b, j);
    }
  }

  lemma {:induction false} DecodeShift<M>(c: Codec<M>, a: Bytes, b: Bytes, i: nat, m: M)
    requires |a + b| < TWO_63
    ensures Agree(DecodeFrom(c, b, i, m), DecodeFrom(c, a + b, |a| + i, m))
    decreases |b| - i
  {
    hide Step;
    if i < |b| {
      StepShift(c, a, b, i, m);
      var r := Step(c, b, i, m);
      if r.More? {
        DecodeShift(c, a, b, r.next, r.msg);
      }
    }
  }

  // ---------------------------------------------------------------- the merge law

  lemma {:induction false} DecodePrefix<M>(c: Codec<M>, a: Bytes, b: Bytes, i: nat, m: M)
    requires i <= |a| && |a + b| < TWO_63
    requires DecodeFrom(c, a, i, m).err == NoError
    ensures DecodeFrom(c, a + b, i, m) == DecodeFrom(c, a + b, |a|, DecodeFrom(c, a, i, m).msg)
    decreases |a| - i
  {
    if i < |a| {
      var r := Step(c, a, i, m);
      assert (a + b)[..r.next] == a[..r.next];
      StepLocal(c, a, a + b, i, m);
      DecodePrefix(c, a, b, r.next, r.msg);
    }
  }

  /** "Last One Wins": once `a` decodes, decoding `a + b` is decoding `b` into the result. */
  lemma MergeLaw<M>(c: Codec<M>, a: Bytes, b: Bytes, m: M)
    requires |a + b| < TWO_63
    requires Decode(c, a, m).err == NoError
    ensures Agree(Decode(c, b, Decode(c, a, m).msg), Decode(c, a + b, m))
  {
    DecodePrefix(c, a, b, 0, m);
    DecodeShift(c, a, b, 0, Decode(c, a, m).msg);
  }

  // ---------------------------------------------------------------- when the errors differ

  /** A field that ends at `end`, past the input: its end fits 63 bits here, but no longer
      when `k` bytes stand in front. */
  predicate Past(d: Bytes, end: nat, k: nat) {
    |d| < end < TWO_63 <= k + end
  }

  predicate TextOvershoots(d: Bytes, i: nat, k: nat)
    requires i <= |d|
  {
    match Varint(d[i..])
    case Fail(_) => false
    case Ok(v, n) => v < TWO_63 && Past(d, i + n + v, k)
  }

  /** The turn at `i` meets such a field. */
  predicate Overshoots<M>(c: Codec<M>, d: Bytes, i: nat, k: nat)
    requires i <= |d|
  {
    match Varint(d[i..])
    case Fail(_) => false
    case Ok(wire, n) =>
      && wire % 8 != 4 && Int32(wire / 8) > 0
      && match c.kind(Int32(wire / 8))
         case Scalar => false
         case Delimited => wire % 8 == 2 && TextOvershoots(d, i + n, k)
         case Unknown => FieldEnd(d[i..]).At? && Past(d, i + FieldEnd(d[i..]).pos, k)
  }

  /** The turn that ends the loop does. */
  predicate EndsOvershooting<M>(c: Codec<M>, d: Bytes, i: nat, m: M, k: nat)
    decreases |d| - i
  {
    i < |d| && match Step(c, d, i, m)
               case More(next, m') => EndsOvershooting(c, d, next, m', k)
               case Stop(_, _) => Overshoots(c, d, i, k)
  }

  lemma TextErrorShift(a: Bytes, b: Bytes, j: nat)
    requires j <= |b| && |a + b| < TWO_63 && TakeText(b, j).NotTaken?
    ensures TakeText(a + b, |a| + j) == TakeText(b, j) <==> !TextOvershoots(b, j, |a|)
  {
    ShiftedRest(a, b, j);
  }

  lemma StepErrorShift<M>(c: Codec<M>, a: Bytes, b: Bytes, i: nat, m: M)
    requires i < |b| && |a + b| < TWO_63 && Step(c, b, i, m).Stop?
    ensures Step(c, a + b, |a| + i, m) == Step(c, b, i, m) <==> !Overshoots(c, b, i, |a|)
  {
    hide Varint, FieldEnd, TakeText, TextOvershoots;
    ShiftedRest(a, b, i);
    if Varint(b[i..]).Ok? {
      var j := i + Varint(b[i..]).size;
      match c.kind(Int32(Varint(b[i..]).value / 8))
      case Unknown => ShiftedRest(a, b, i);
      case Scalar => ShiftedRest(a, b, j);
      case Delimited =>
        TakeTextShift(a, b, j);
        if TakeText(b, j).NotTaken? {
          TextErrorShift(a, b, j);
        } else {
          TakenStays(b, j, |a|);
        }
    }
  }

  lemma TakenStays(b: Bytes, j: nat, k: nat)
    requires j <= |b| && TakeText(b, j).Took?
    ensures !TextOvershoots(b, j, k)
  {
  }

  lemma {:induction false} ErrorShift<M>(c: Codec<M>, a: Bytes, b: Bytes, i: nat, m: M)
    requires |a + b| < TWO_63
    ensures DecodeFrom(c, a + b, |a| + i, m) == DecodeFrom(c, b, i, m) <==> !EndsOvershooting(c, b, i, m, |a|)
    decreases |b| - i
  {
    hide Step, Overshoots;
    if i < |b| {
      StepShift(c, a, b, i, m);
      var r := Step(c, b, i, m);
      if r.More? {
        ErrorShift(c, a, b, r.next, r.msg);
      } else {
        StepErrorShift(c, a, b, i, m);
      }
    }
  }

  /** Both decodes of the merge law end in the same outcome, error included, exactly unless the
      loop over `b` ends at a field whose claimed end, moved by `|a|`, leaves 63 bits. */
  lemma MergeLawExactly<M>(c: Codec<M>, a: Bytes, b: Bytes, m: M)
    requires |a + b| < TWO_63
    requires Decode(c, a, m).err == NoError
    ensures Decode(c, a + b, m) == Decode(c, b, Decode(c, a, m).msg) <==>
            !EndsOvershooting(c, b, 0, Decode(c, a, m).msg, |a|)
  {
    DecodePrefix(c, a, b, 0, m);
    ErrorShift(c, a, b, 0, Decode(c, a, m).msg);
  }

  lemma DecodeThen<M>(c: Codec<M>, a: Bytes, b: Bytes, m: M, m1: M, m2: M)
    requires |a + b| < TWO_63
    requires Decode(c, a, m) == Outcome(m1, NoError) && Decode(c, b, m1) == Outcome(m2, NoError)
    ensures Decode(c, a + b, m) == Outcome(m2, NoError)
  {
    MergeLaw(c, a, b, m);
  }

  /** Index `i` is where some turn of the loop that is now at `at` with target `m` starts or ends. */
  ghost predicate Boundary<M>(c: Codec<M>, d: Bytes, at: nat, m: M, i: nat)
    decreases |d| - at
  {
    at == i || (at < |d| && Step(c, d, at, m).More? && Boundary(c, d, Step(c, d, at, m).next, Step(c, d, at, m).msg, i))
  }

  /** The input up to a field boundary decodes on its own. */
  lemma {:induction false} BoundaryPrefixDecodes<M>(c: Codec<M>, d: Bytes, at: nat, m: M, i: nat)
    requires at <= |d| < TWO_63 && i <= |d| && Boundary(c, d, at, m, i)
    ensures at <= i && DecodeFrom(c, d[..i], at, m).err == NoError
    decreases |d| - at
  {
    if at < i {
      var r := Step(c, d, at, m);
      BoundaryPrefixDecodes(c, d, r.next, r.msg, i);
      assert d[..i][..r.next] == d[..r.next];
      StepLocal(c, d, d[..i], at, m);
    } else if at > i {
      BoundaryPrefixDecodes(c, d, Step(c, d, at, m).next, Step(c, d, at, m).msg, i);
    }
  }

  /** A decode succeeds exactly when its turns end at the end of the input: every byte is
      consumed and none past the end. */
  lemma {:induction false} SuccessEndsAtTheEnd<M>(c: Codec<M>, d: Bytes, at: nat, m: M)
    requires at <= |d|
    ensures DecodeFrom(c, d, at, m).err == NoError <==> Boundary(c, d, at, m, |d|)
    decreases |d| - at
  {
    if at < |d| && Step(c, d, at, m).More? {
      SuccessEndsAtTheEnd(c, d, Step(c, d, at, m).next, Step(c, d, at, m).msg);
    }
  }

  // ---------------------------------------------------------------- unknown fields

  /** A field the message does not declare: its truncated number is positive and unknown. */
  ghost predicate IsUnknown<M>(c: Codec<M>, f: Field)
    requires WellFormed(f)
  {
    var tag := if f.Plain? then f.tag else f.open;
    var number := Int32(Varint(tag).value / 8);
    number > 0 && c.kind(number) == Unknown
  }

  lemma UnknownFieldAlone<M>(c: Codec<M>, f: Field, m: M)
    requires WellFormed(f) && IsUnknown(c, f) && |Flatten(f)| < TWO_63
    ensures Decode(c, Flatten(f), m) == Outcome(m, NoError)
  {
    var d := Flatten(f);
    assert d[0..] == d;
    FieldIsScanned(d, 0, f);
    var tag := if f.Plain? then f.tag else f.open;
    assert Holds(d, 0, tag);
    VarintReads(d, 0, tag);
    assert SkipAt(d, 0) == At(|d|);
    assert Step(c, d, 0, m) == More(|d|, m);
    assert DecodeFrom(c, d, |d|, m) == Outcome(m, NoError);
  }

  /** Between two fields, an unknown field, nested groups included, changes nothing. */
  lemma UnknownFieldIsTransparent<M>(c: Codec<M>, a: Bytes, f: Field, b: Bytes, m: M)
    requires WellFormed(f) && IsUnknown(c, f) && |a + Flatten(f) + b| < TWO_63
    requires Decode(c, a, m).err == NoError
    ensures Decode(c, a + Flatten(f) + b, m).msg == Decode(c, a + b, m).msg
    ensures SameVerdict(Decode(c, a + Flatten(f) + b, m).err, Decode(c, a + b, m).err)
  {
    var m' := Decode(c, a, m).msg;
    MergeLaw(c, a, b, m);
    MergeLaw(c, a, Flatten(f), m);
    UnknownFieldAlone(c, f, m');
    MergeLaw(c, a + Flatten(f), b, m);
  }

  /** A loop that ends overshooting behind `a` fails with one length error, and on its own with
      the other. */
  lemma {:induction false} OvershootingIsEOF<M>(c: Codec<M>, b: Bytes, i: nat, m: M, k: nat)
    requires EndsOvershooting(c, b, i, m, k)
    ensures DecodeFrom(c, b, i, m).err == UnexpectedEOF
    decreases |b| - i
  {
    hide Varint, FieldEnd;
    if Step(c, b, i, m).More? {
      OvershootingIsEOF(c, b, Step(c, b, i, m).next, Step(c, b, i, m).msg, k);
    }
  }

  lemma OutcomeBehind<M>(c: Codec<M>, a: Bytes, b: Bytes, m: M)
    requires |a + b| < TWO_63
    ensures DecodeFrom(c, a + b, |a|, m)
            == if EndsOvershooting(c, b, 0, m, |a|)
               then Outcome(DecodeFrom(c, b, 0, m).msg, InvalidLength) else DecodeFrom(c, b, 0, m)
  {
    hide DecodeFrom, EndsOvershooting;
    DecodeShift(c, a, b, 0, m);
    ErrorShift(c, a, b, 0, m);
    if EndsOvershooting(c, b, 0, m, |a|) {
      OvershootingIsEOF(c, b, 0, m, |a|);
    }
  }

  lemma OvershootsMoves<M>(c: Codec<M>, a: Bytes, b: Bytes, i: nat, k: nat)
    requires i <= |b| && |a + b| < TWO_63
    ensures Overshoots(c, a + b, |a| + i, k) <==> Overshoots(c, b, i, |a| + k) && !Overshoots(c, b, i, |a|)
  {
    hide Varint, FieldEnd;
    ShiftedRest(a, b, i);
    if Varint(b[i..]).Ok? {
      ShiftedRest(a, b, i + Varint(b[i..]).size);
    }
  }

  /** Overshooting behind `a` with `k` more bytes in front is overshooting with `|a| + k` bytes in
      front, but not yet with `|a|`. */
  lemma {:induction false} OvershootingMoves<M>(c: Codec<M>, a: Bytes, b: Bytes, i: nat, m: M, k: nat)
    requires |a + b| < TWO_63
    ensures EndsOvershooting(c, a + b, |a| + i, m, k) <==>
            EndsOvershooting(c, b, i, m, |a| + k) && !EndsOvershooting(c, b, i, m, |a|)
    decreases |b| - i
  {
    hide Step, Overshoots;
    if i < |b| {
      StepShift(c, a, b, i, m);
      var r := Step(c, b, i, m);
      if r.More? {
        OvershootingMoves(c, a, b, r.next, r.msg, k);
      } else {
        OvershootsMoves(c, a, b, i, k);
      }
    }
  }

  lemma {:induction false} OvershootingGrows<M>(c: Codec<M>, b: Bytes, i: nat, m: M, k: nat, k': nat)
    requires k <= k' && EndsOvershooting(c, b, i, m, k)
    ensures EndsOvershooting(c, b, i, m, k')
    decreases |b| - i
  {
    hide Varint, FieldEnd;
    if Step(c, b, i, m).More? {
      OvershootingGrows(c, b, Step(c, b, i, m).next, Step(c, b, i, m).msg, k, k');
    }
  }

  /** An unknown field inserted at any field boundary of an input changes nothing, and the error
      only if the loop from there ends at a field whose claimed end leaves 63 bits by it. */
  lemma UnknownFieldAtBoundary<M>(c: Codec<M>, d: Bytes, i: nat, f: Field, m: M)
    requires WellFormed(f) && IsUnknown(c, f) && |d| + |Flatten(f)| < TWO_63
    requires i <= |d| && Boundary(c, d, 0, m, i)
    ensures Agree(Decode(c, d, m), Decode(c, d[..i] + Flatten(f) + d[i..], m))
    ensures Decode(c, d[..i] + Flatten(f) + d[i..], m) == Decode(c, d, m) <==>
            !EndsOvershooting(c, d, i, Decode(c, d[..i], m).msg, |Flatten(f)|)
  {
    hide Boundary, IsUnknown, WellFormed, Flatten, DecodeFrom;
    BoundaryPrefixDecodes(c, d, 0, m, i);
    var a, b := d[..i], d[i..];
    assert a + b == d;
    UnknownFieldIsTransparent(c, a, f, b, m);
    InsertedError(c, a, f, b, m);
  }

  lemma InsertedError<M>(c: Codec<M>, a: Bytes, f: Field, b: Bytes, m: M)
    requires WellFormed(f) && IsUnknown(c, f) && |a + Flatten(f) + b| < TWO_63
    requires Decode(c, a, m).err == NoError
    ensures Decode(c, a + Flatten(f) + b, m) == Decode(c, a + b, m) <==>
            !EndsOvershooting(c, a + b, |a|, Decode(c, a, m).msg, |Flatten(f)|)
  {
    hide IsUnknown, WellFormed, Flatten, DecodeFrom, EndsOvershooting;
    var s, m' := Flatten(f), Decode(c, a, m).msg;
    DecodePrefix(c, a, b, 0, m);
    MergeLaw(c, a, s, m);
    UnknownFieldAlone(c, f, m');
    DecodePrefix(c, a + s, b, 0, m);
    OutcomeBehind(c, a, b, m');
    OutcomeBehind(c, a + s, b, m');
    OvershootingMoves(c, a, b, 0, m', |s|);
    if EndsOvershooting(c, b, 0, m', |a|) {
      OvershootingGrows(c, b, 0, m', |a|, |a| + |s|);
    }
    if EndsOvershooting(c, b, 0, m', |a| + |s|) {
      OvershootingIsEOF(c, b, 0, m', |a| + |s|);
    }
  }

  // ---------------------------------------------------------------- sizes

  /** Fewest bytes a field with this payload can take on the wire. */
  function Cost(p: Payload): nat {
    match p
    case Number(_) => 2
    case Text(b) => 1 + Sov(|b|) + |b|
  }

  /** Storing a field never lets the size of the message grow by more than its cost. */
  ghost predicate Thrifty<M(!new)>(c: Codec<M>, size: M -> nat) {
    forall number, p, m :: c.put(number, p, m).err == NoError ==> size(c.put(number, p, m).msg) <= size(m) + Cost(p)
  }

  lemma StepPays<M(!new)>(c: Codec<M>, size: M -> nat, d: Bytes, i: nat, m: M)
    requires i < |d| && Thrifty(c, size) && Step(c, d, i, m).More?
    ensures size(Step(c, d, i, m).msg) <= size(m) + Step(c, d, i, m).next - i
  {
    var j := i + Varint(d[i..]).size;
    var number := Int32(Varint(d[i..]).value / 8);
    if c.kind(number) == Delimited {
      VarintAtLeastSov(d[j..]);
      assert size(c.put(number, TakeText(d, j).payload, m).msg) <= size(m) + Cost(TakeText(d, j).payload);
    } else if c.kind(number) == Scalar {
      assert size(c.put(number, TakeNumber(d, j).payload, m).msg) <= size(m) + 2;
    }
  }

  lemma {:induction false} DecodePays<M(!new)>(c: Codec<M>, size: M -> nat, d: Bytes, i: nat, m: M)
    requires i <= |d| && Thrifty(c, size) && DecodeFrom(c, d, i, m).err == NoError
    ensures size(DecodeFrom(c, d, i, m).msg) <= size(m) + |d| - i
    decreases |d| - i
  {
    if i < |d| {
      StepPays(c, size, d, i, m);
      DecodePays(c, size, d, Step(c, d, i, m).next, Step(c, d, i, m).msg);
    }
  }
}
