/** What a decode means, said without indices: the input is a list of whole fields, and the
    message is the target with those fields stored one after another. */
module FieldLists {
  import opened Wire
  import opened Grammar
  import opened Decoding

  function Tag(f: Field): Bytes {
    if f.Plain? then f.tag else f.open
  }

  /** The field number the decoders dispatch on. */
  function FieldNumber(f: Field): int
    requires WellFormed(f)
  {
    Int32(Varint(Tag(f)).value / 8)
  }

  /** The bytes after the length of a delimited payload. */
  function Content(payload: Bytes): Bytes
    requires IsDelimited(payload)
  {
    payload[Varint(payload).size..]
  }

  /** A field the decoder takes: its number is positive, and if it is declared, it has the
      declared wire type. */
  ghost predicate Takes<M>(c: Codec<M>, f: Field) {
    && WellFormed(f) && FieldNumber(f) > 0
    && match c.kind(FieldNumber(f))
       case Unknown => true
       case Scalar => f.Plain? && WireType(f.tag) == 0
       case Delimited => f.Plain? && WireType(f.tag) == 2
  }

  ghost predicate TakesAll<M>(c: Codec<M>, fs: Fields) {
    fs.Cons? ==> Takes(c, fs.head) && TakesAll(c, fs.tail)
  }

  ghost function Store<M>(c: Codec<M>, f: Field, m: M): Outcome<M>
    requires Takes(c, f)
  {
    match c.kind(FieldNumber(f))
    case Unknown => Outcome(m, NoError)
    case Scalar => c.put(FieldNumber(f), Payload.Number(Varint(f.payload).value), m)
    case Delimited => c.put(FieldNumber(f), Text(Content(f.payload)), m)
  }

  ghost function StoreAll<M>(c: Codec<M>, fs: Fields, m: M): Outcome<M>
    requires TakesAll(c, fs)
  {
    if fs.Nil? then Outcome(m, NoError)
    else
      var out := Store(c, fs.head, m);
      if out.err != NoError then out else StoreAll(c, fs.tail, out.msg)
  }

  // ---------------------------------------------------------------- a field is a turn

  lemma TagReads(d: Bytes, i: nat, f: Field)
    requires WellFormed(f) && Holds(d, i, Flatten(f))
    ensures i + |Tag(f)| <= |d| && Varint(d[i..]) == Varint(Tag(f)) && |Tag(f)| == Varint(Tag(f)).size
    ensures f.Plain? ==> Holds(d, i + |f.tag|, f.payload)
  {
    if f.Plain? {
      HoldsBoth(d, i, f.tag, f.payload);
    } else {
      Associate(f.open, FlattenAll(f.inner), f.close);
      HoldsBoth(d, i, f.open, FlattenAll(f.inner) + f.close);
    }
    VarintReads(d, i, Tag(f));
  }

  lemma PayloadTaken(d: Bytes, j: nat, payload: Bytes)
    requires |d| < TWO_63 && Holds(d, j, payload)
    ensures IsVarint(payload) ==> TakeNumber(d, j) == Took(Payload.Number(Varint(payload).value), j + |payload|)
    ensures IsDelimited(payload) ==> TakeText(d, j) == Took(Text(Content(payload)), j + |payload|)
  {
    hide Varint;
    if Varint(payload).Ok? {
      VarintReads(d, j, payload);
      var n := Varint(payload).size;
      if IsDelimited(payload) {
        assert d[j + n..j + |payload|] == d[j..j + |payload|][n..];
      }
    }
  }

  lemma FieldIsSkipped(d: Bytes, i: nat, f: Field)
    requires |d| < TWO_63 && WellFormed(f) && Holds(d, i, Flatten(f))
    ensures i <= |d| && SkipAt(d, i) == At(i + |Flatten(f)|)
  {
    hide Varint, Body;
    var s := d[i..];
    assert s[0..] == s && Holds(s, 0, Flatten(f));
    FieldIsScanned(s, 0, f);
  }

  lemma TurnOfField<M>(c: Codec<M>, d: Bytes, i: nat, f: Field, m: M)
    requires |d| < TWO_63 && Takes(c, f) && Holds(d, i, Flatten(f)) && Flatten(f) != []
    ensures i < |d|
    ensures var out := Store(c, f, m);
            Step(c, d, i, m) == if out.err == NoError then More(i + |Flatten(f)|, out.msg) else Stop(out.msg, out.err)
  {
    hide Varint, SkipAt, TakeText, TakeNumber;
    TagReads(d, i, f);
    NotEndGroup(f);
    match c.kind(FieldNumber(f))
    case Unknown => FieldIsSkipped(d, i, f);
    case Scalar => PayloadTaken(d, i + |f.tag|, f.payload);
    case Delimited => PayloadTaken(d, i + |f.tag|, f.payload);
  }

  lemma NotEndGroup(f: Field)
    requires WellFormed(f)
    ensures WireType(Tag(f)) != 4 && Flatten(f) != []
  {
  }

  lemma {:induction false} FoldIsDecode<M>(c: Codec<M>, d: Bytes, i: nat, fs: Fields, m: M)
    requires |d| < TWO_63 && TakesAll(c, fs) && i <= |d| && d[i..] == FlattenAll(fs)
    ensures DecodeFrom(c, d, i, m) == StoreAll(c, fs, m)
    decreases fs
  {
    hide Step, Store, Varint, Flatten;
    if fs.Cons? {
      var f, n := fs.head, |Flatten(fs.head)|;
      assert d[i..i + n] == d[i..][..n] == Flatten(f);
      assert d[i + n..] == d[i..][n..] == FlattenAll(fs.tail);
      NotEndGroup(f);
      TurnOfField(c, d, i, f, m);
      if Store(c, f, m).err == NoError {
        FoldIsDecode(c, d, i + n, fs.tail, Store(c, f, m).msg);
      }
    }
  }

  // ---------------------------------------------------------------- a turn is a field

  lemma SkippedIsField(d: Bytes, i: nat) returns (f: Field)
    requires i <= |d| && SkipAt(d, i).At?
    ensures WellFormed(f) && Holds(d, i, Flatten(f)) && i + |Flatten(f)| == SkipAt(d, i).pos
  {
    var s, p := d[i..], SkipAt(d, i).pos;
    assert s[0..] == s;
    f := BodyGivesField(s, 0);
    assert s[0..p - i] == d[i..p];
  }

  lemma TakenIsField(d: Bytes, i: nat, wireType: nat) returns (f: Field)
    requires i <= |d| < TWO_63 && Varint(d[i..]).Ok? && wireType == Varint(d[i..]).value % 8
    requires var j := i + Varint(d[i..]).size;
             (wireType == 0 && TakeNumber(d, j).Took?) || (wireType == 2 && TakeText(d, j).Took?)
    ensures f.Plain? && WellFormed(f) && Holds(d, i, Flatten(f)) && WireType(f.tag) == wireType
  {
    var tag := TokenAt(d, i);
    var j := i + |tag|;
    var next := if wireType == 0 then TakeNumber(d, j).next else TakeText(d, j).next;
    VarintLocal(d[j..], d[j..next]);
    f := Plain(tag, d[j..next]);
    SliceJoin(d, i, j, next);
  }

  lemma FieldOfTurn<M>(c: Codec<M>, d: Bytes, i: nat, m: M) returns (f: Field)
    requires i < |d| < TWO_63 && Step(c, d, i, m).More?
    ensures Takes(c, f) && Holds(d, i, Flatten(f)) && i + |Flatten(f)| == Step(c, d, i, m).next
    ensures Store(c, f, m) == Outcome(Step(c, d, i, m).msg, NoError)
  {
    hide Varint, SkipAt, TakeText, TakeNumber;
    if c.kind(Int32(Varint(d[i..]).value / 8)) == Unknown {
      f := SkippedIsField(d, i);
    } else {
      f := TakenIsField(d, i, Varint(d[i..]).value % 8);
    }
    TagReads(d, i, f);
    NotEndGroup(f);
    TurnOfField(c, d, i, f, m);
  }

  lemma {:induction false} DecodeIsFold<M>(c: Codec<M>, d: Bytes, i: nat, m: M) returns (fs: Fields)
    requires i <= |d| < TWO_63 && DecodeFrom(c, d, i, m).err == NoError
    ensures TakesAll(c, fs) && FlattenAll(fs) == d[i..] && StoreAll(c, fs, m) == DecodeFrom(c, d, i, m)
    decreases |d| - i
  {
    if i == |d| {
      fs := Nil;
    } else {
      var f := FieldOfTurn(c, d, i, m);
      var next := Step(c, d, i, m).next;
      var rest := DecodeIsFold(c, d, next, Step(c, d, i, m).msg);
      fs := Cons(f, rest);
      SliceJoin(d, i, next, |d|);
      assert d[i..|d|] == d[i..] && d[next..|d|] == d[next..];
    }
  }

  /** A decode succeeds with `result` exactly when the input is a list of fields the decoder
      takes and storing them in order gives `result`. */
  lemma DecoderIsFoldOverFields<M>(c: Codec<M>, d: Bytes, m: M, result: M)
    requires |d| < TWO_63
    ensures Decode(c, d, m) == Outcome(result, NoError) <==>
            exists fs :: TakesAll(c, fs) && FlattenAll(fs) == d && StoreAll(c, fs, m) == Outcome(result, NoError)
  {
    assert d[0..] == d;
    if Decode(c, d, m) == Outcome(result, NoError) {
      var fs := DecodeIsFold(c, d, 0, m);
    }
    forall fs | TakesAll(c, fs) && FlattenAll(fs) == d && StoreAll(c, fs, m) == Outcome(result, NoError)
      ensures Decode(c, d, m) == Outcome(result, NoError)
    {
      FoldIsDecode(c, d, 0, fs, m);
    }
  }
}
