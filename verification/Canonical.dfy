/** What the encodings look like and what decoding keeps of a list of fields, said through the
    fields on the wire. */
module Canonical {
  import opened Wire
  import opened Grammar
  import opened Decoding
  import opened FieldLists
  import opened Messages

  // ---------------------------------------------------------------- the last one wins

  /** The content of the last field number `n` in the list; `before` if there is none. */
  ghost function LastText<M>(c: Codec<M>, fs: Fields, n: int, before: Bytes): Bytes
    requires TakesAll(c, fs) && c.kind(n) == Delimited
  {
    if fs.Nil? then before
    else if FieldNumber(fs.head) == n then LastText(c, fs.tail, n, Content(fs.head.payload))
    else LastText(c, fs.tail, n, before)
  }

  /** Whether the last field number 3 in the list is other than zero. */
  ghost function LastFlag(fs: Fields, before: bool): bool
    requires TakesAll(PARAMS, fs)
  {
    if fs.Nil? then before
    else if FieldNumber(fs.head) == 3 then LastFlag(fs.tail, Varint(fs.head.payload).value != 0)
    else LastFlag(fs.tail, before)
  }

  /** Each field of `Params` is decided by its last occurrence, a default value included. */
  lemma {:induction false} ParamsLastWins(fs: Fields, m: ParamsValue)
    requires TakesAll(PARAMS, fs)
    ensures StoreAll(PARAMS, fs, m)
            == Outcome(ParamsValue(LastText(PARAMS, fs, 1, m.issuer), LastText(PARAMS, fs, 2, m.denom),
                                   LastFlag(fs, m.paused), LastText(PARAMS, fs, 4, m.maxSupply)), NoError)
    decreases fs
  {
    hide FieldNumber, Content, Varint, WellFormed;
    if fs.Cons? {
      ParamsLastWins(fs.tail, Store(PARAMS, fs.head, m).msg);
    }
  }

  lemma {:induction false} MintLastWins(fs: Fields, m: MintValue)
    requires TakesAll(MINT, fs)
    ensures StoreAll(MINT, fs, m)
            == Outcome(MintValue(LastText(MINT, fs, 1, m.authority), LastText(MINT, fs, 2, m.toAddress),
                                 LastText(MINT, fs, 3, m.amount)), NoError)
    decreases fs
  {
    hide FieldNumber, Content, Varint, WellFormed;
    if fs.Cons? {
      MintLastWins(fs.tail, Store(MINT, fs.head, m).msg);
    }
  }

  lemma {:induction false} BurnLastWins(fs: Fields, m: BurnValue)
    requires TakesAll(BURN, fs)
    ensures StoreAll(BURN, fs, m)
            == Outcome(BurnValue(LastText(BURN, fs, 1, m.authority), LastText(BURN, fs, 2, m.fromAddress),
                                 LastText(BURN, fs, 3, m.amount)), NoError)
    decreases fs
  {
    hide FieldNumber, Content, Varint, WellFormed;
    if fs.Cons? {
      BurnLastWins(fs.tail, Store(BURN, fs.head, m).msg);
    }
  }

  /** The contents of all fields number 2, one after another. */
  ghost function AllParams(fs: Fields): Bytes
    requires TakesAll(UPDATE, fs)
  {
    if fs.Nil? then []
    else if FieldNumber(fs.head) == 2 then Content(fs.head.payload) + AllParams(fs.tail)
    else AllParams(fs.tail)
  }

  lemma {:induction false} AllParamsFit(fs: Fields)
    requires TakesAll(UPDATE, fs)
    ensures |AllParams(fs)| <= |FlattenAll(fs)|
    decreases fs
  {
    hide FieldNumber, Varint;
    if fs.Cons? {
      AllParamsFit(fs.tail);
    }
  }

  /** The authority of `MsgUpdateParams` is its last one; its params are what all the params fields
      together decode to. */
  lemma {:induction false} UpdateLastWins(fs: Fields, m: UpdateParamsValue)
    requires TakesAll(UPDATE, fs) && |FlattenAll(fs)| < TWO_63 && StoreAll(UPDATE, fs, m).err == NoError
    ensures Decode(PARAMS, AllParams(fs), m.params).err == NoError
    ensures StoreAll(UPDATE, fs, m).msg
            == UpdateParamsValue(LastText(UPDATE, fs, 1, m.authority), Decode(PARAMS, AllParams(fs), m.params).msg)
    decreases fs
  {
    hide FieldNumber, Content, Varint, WellFormed, DecodeFrom;
    if fs.Nil? {
      NothingDecoded(m.params);
    } else {
      var next := Store(UPDATE, fs.head, m).msg;
      FlattenTail(fs);
      UpdateLastWins(fs.tail, next);
      if FieldNumber(fs.head) == 2 {
        DelimitedHead(UPDATE, fs);
        AllParamsFit(fs);
        DecodeThen(PARAMS, Content(fs.head.payload), AllParams(fs.tail), m.params, next.params,
                   Decode(PARAMS, AllParams(fs.tail), next.params).msg);
      }
    }
  }

  lemma DelimitedHead<M>(c: Codec<M>, fs: Fields)
    requires fs.Cons? && TakesAll(c, fs) && c.kind(FieldNumber(fs.head)) == Delimited
    ensures fs.head.Plain? && IsDelimited(fs.head.payload)
  {
  }

  lemma FlattenTail(fs: Fields)
    requires fs.Cons?
    ensures |FlattenAll(fs.tail)| <= |FlattenAll(fs)|
  {
  }

  lemma NothingDecoded(p: ParamsValue)
    ensures Decode(PARAMS, [], p) == Outcome(p, NoError)
  {
  }

  // ---------------------------------------------------------------- the encodings

  /** Tags take one byte, lengths no more than they need, and a flag is the byte one. */
  ghost predicate Tight(f: Field) {
    && WellFormed(f) && f.Plain? && |f.tag| == 1
    && (WireType(f.tag) == 0 ==> f.payload == [1])
    && (WireType(f.tag) == 2 ==> f.payload == VarintBytes(|Content(f.payload)|) + Content(f.payload))
  }

  /** Tight fields whose numbers rise strictly from `above` on: in order, and one of each number. */
  ghost predicate Orderly(fs: Fields, above: int)
    decreases fs
  {
    fs.Cons? ==> Tight(fs.head) && FieldNumber(fs.head) > above && Orderly(fs.tail, FieldNumber(fs.head))
  }

  /** `fs` are orderly fields on the wire for which the decoder takes `bytes`. */
  ghost predicate Spells<M>(c: Codec<M>, fs: Fields, above: int, bytes: Bytes) {
    Orderly(fs, above) && TakesAll(c, fs) && FlattenAll(fs) == bytes
  }

  lemma NoFields<M>(c: Codec<M>, above: int)
    ensures Spells(c, Nil, above, [])
  {
  }

  lemma DelimitedInFront<M>(c: Codec<M>, tag: Byte, b: Bytes, fs: Fields, bytes: Bytes) returns (all: Fields)
    requires 8 <= tag < 128 && tag % 8 == 2 && c.kind(tag / 8) == Delimited && |Delimit(tag, b)| < TWO_63
    requires Spells(c, fs, tag / 8, bytes)
    ensures Spells(c, all, tag / 8 - 1, Delimit(tag, b) + bytes)
    ensures all.Cons? && all.tail == fs && IsText(all.head, tag / 8, b)
  {
    hide Delimit, VarintBytes, Varint;
    var f := TightText(tag, b);
    all := Cons(f, fs);
    assert Delimit(tag, b) + bytes == Flatten(f) + FlattenAll(fs);
  }

  /** A field with the number and the content. */
  ghost predicate IsText(f: Field, n: int, b: Bytes) {
    WellFormed(f) && FieldNumber(f) == n && f.Plain? && IsDelimited(f.payload) && Content(f.payload) == b
  }

  lemma TightText(tag: Byte, b: Bytes) returns (f: Field)
    requires 8 <= tag < 128 && tag % 8 == 2 && |Delimit(tag, b)| < TWO_63
    ensures Tight(f) && IsText(f, tag / 8, b) && Flatten(f) == Delimit(tag, b) && WireType(f.tag) == 2
  {
    OneByteTag(tag);
    TextPayload(b);
    var payload := VarintBytes(|b|) + b;
    f := Plain([tag], payload);
    PlainFlattens([tag], VarintBytes(|b|), b);
    hide VarintBytes, Varint, IsDelimited, Content, Delimit, Flatten;
    assert IsPayload(2, payload);
  }

  lemma PlainFlattens(tag: Bytes, n: Bytes, b: Bytes)
    ensures Flatten(Plain(tag, n + b)) == tag + n + b
  {
  }

  lemma OneByteTag(tag: Byte)
    requires 8 <= tag < 128
    ensures Varint([tag]) == Ok(tag, 1) && Int32(tag / 8) == tag / 8
  {
    TagReadBack(tag, []);
    assert [tag] + [] == [tag];
  }

  lemma TextPayload(b: Bytes)
    requires |b| < TWO_63
    ensures IsDelimited(VarintBytes(|b|) + b) && Content(VarintBytes(|b|) + b) == b
  {
    hide VarintBytes, Varint;
    VarintReadBack(|b|, b);
    assert (VarintBytes(|b|) + b)[|VarintBytes(|b|)|..] == b;
  }

  lemma TextInFront<M>(c: Codec<M>, tag: Byte, b: Bytes, fs: Fields, bytes: Bytes) returns (all: Fields)
    requires 8 <= tag < 128 && tag % 8 == 2 && c.kind(tag / 8) == Delimited && |TextField(tag, b)| < TWO_63
    requires Spells(c, fs, tag / 8, bytes)
    ensures Spells(c, all, tag / 8 - 1, TextField(tag, b) + bytes)
    ensures all == fs || (all.Cons? && all.tail == fs && IsText(all.head, tag / 8, b))
  {
    if b == [] {
      assert [] + bytes == bytes;
      Lower(c, fs, tag / 8, tag / 8 - 1, bytes);
      all := fs;
    } else {
      all := DelimitedInFront(c, tag, b, fs, bytes);
    }
  }

  lemma Lower<M>(c: Codec<M>, fs: Fields, above: int, lower: int, bytes: Bytes)
    requires lower <= above && Spells(c, fs, above, bytes)
    ensures Spells(c, fs, lower, bytes)
  {
  }

  lemma FlagInFront(v: bool, fs: Fields, bytes: Bytes) returns (all: Fields)
    requires Spells(PARAMS, fs, 3, bytes)
    ensures Spells(PARAMS, all, 2, BoolField(TAG_3_BOOL, v) + bytes)
  {
    hide Varint, Tight, BoolField;
    FlagBytes(v);
    if v {
      var f := TightFlag();
      all := Cons(f, fs);
      FlagSpells(f, fs, bytes);
      assert BoolField(TAG_3_BOOL, v) + bytes == Flatten(f) + FlattenAll(fs);
    } else {
      assert [] + bytes == bytes;
      Lower(PARAMS, fs, 3, 2, bytes);
      all := fs;
    }
  }

  lemma FlagBytes(v: bool)
    ensures BoolField(TAG_3_BOOL, v) == if v then [0x18, 1] else []
  {
  }

  lemma TightFlag() returns (f: Field)
    ensures Tight(f) && FieldNumber(f) == 3 && WireType(f.tag) == 0 && Flatten(f) == [0x18, 1]
  {
    f := Plain([TAG_3_BOOL], [1]);
    OneByteTag(TAG_3_BOOL);
    OneIsVarint();
  }

  lemma FlagSpells(f: Field, fs: Fields, bytes: Bytes)
    requires Tight(f) && FieldNumber(f) == 3 && WireType(f.tag) == 0 && Spells(PARAMS, fs, 3, bytes)
    ensures Spells(PARAMS, Cons(f, fs), 2, Flatten(f) + bytes)
  {
    hide Varint;
  }

  lemma OneIsVarint()
    ensures Varint([1]) == Ok(1, 1)
  {
    TagReadBack(1, []);
    assert [1 as Byte] + [] == [1 as Byte];
  }

  lemma Parts(a: Bytes, b: Bytes, c: Bytes, d: Bytes)
    ensures a + b + c + d == a + (b + (c + (d + []))) && a + b + c == a + (b + (c + [])) && a + b == a + (b + [])
    ensures |a| <= |a + b| && |b| <= |a + b| && |c| <= |a + b + c|
    ensures |a| <= |a + b + c + d| && |b| <= |a + b + c + d| && |c| <= |a + b + c + d| && |d| <= |a + b + c + d|
    ensures |a| <= |a + b + c| && |b| <= |a + b + c|
  {
  }

  /** The encoding of `Params` is a list of tight fields in the order of their numbers, and what
      the decoder stores of them is the message. */
  lemma ParamsInOrder(v: ParamsValue) returns (fs: Fields)
    requires |EncodeParams(v)| < TWO_63
    ensures Orderly(fs, 0) && FlattenAll(fs) == EncodeParams(v)
    ensures TakesAll(PARAMS, fs) && StoreAll(PARAMS, fs, NO_PARAMS) == Outcome(v, NoError)
  {
    fs := ParamsSpelled(v);
    ParamsIntoAny(v, NO_PARAMS);
    SpelledIsStored(PARAMS, fs, EncodeParams(v), NO_PARAMS);
  }

  lemma ParamsSpelled(v: ParamsValue) returns (fs: Fields)
    requires |EncodeParams(v)| < TWO_63
    ensures Spells(PARAMS, fs, 0, EncodeParams(v))
  {
    var f1, f2, f3 := TextField(TAG_1, v.issuer), TextField(TAG_2, v.denom), BoolField(TAG_3_BOOL, v.paused);
    var f4 := TextField(TAG_4, v.maxSupply);
    Parts(f1, f2, f3, f4);
    hide Spells, TextField, BoolField;
    NoFields(PARAMS, 4);
    fs := TextInFront(PARAMS, TAG_4, v.maxSupply, Nil, []);
    fs := FlagInFront(v.paused, fs, f4 + []);
    fs := TextInFront(PARAMS, TAG_2, v.denom, fs, f3 + (f4 + []));
    fs := TextInFront(PARAMS, TAG_1, v.issuer, fs, f2 + (f3 + (f4 + [])));
  }

  lemma SpelledIsStored<M>(c: Codec<M>, fs: Fields, bytes: Bytes, m: M)
    requires |bytes| < TWO_63 && Spells(c, fs, 0, bytes)
    ensures Orderly(fs, 0) && TakesAll(c, fs) && FlattenAll(fs) == bytes && StoreAll(c, fs, m) == Decode(c, bytes, m)
  {
    assert bytes[0..] == bytes;
    FoldIsDecode(c, bytes, 0, fs, m);
  }

  lemma MintInOrder(v: MintValue) returns (fs: Fields)
    requires |EncodeMint(v)| < TWO_63
    ensures Orderly(fs, 0) && FlattenAll(fs) == EncodeMint(v)
    ensures TakesAll(MINT, fs) && StoreAll(MINT, fs, NO_MINT) == Outcome(v, NoError)
  {
    fs := MintSpelled(v);
    MintIntoAny(v, NO_MINT);
    SpelledIsStored(MINT, fs, EncodeMint(v), NO_MINT);
  }

  lemma MintSpelled(v: MintValue) returns (fs: Fields)
    requires |EncodeMint(v)| < TWO_63
    ensures Spells(MINT, fs, 0, EncodeMint(v))
  {
    var f1, f2, f3 := TextField(TAG_1, v.authority), TextField(TAG_2, v.toAddress), TextField(TAG_3, v.amount);
    Parts(f1, f2, f3, []);
    hide Spells, TextField;
    NoFields(MINT, 3);
    fs := TextInFront(MINT, TAG_3, v.amount, Nil, []);
    fs := TextInFront(MINT, TAG_2, v.toAddress, fs, f3 + []);
    fs := TextInFront(MINT, TAG_1, v.authority, fs, f2 + (f3 + []));
  }

  lemma BurnInOrder(v: BurnValue) returns (fs: Fields)
    requires |EncodeBurn(v)| < TWO_63
    ensures Orderly(fs, 0) && FlattenAll(fs) == EncodeBurn(v)
    ensures TakesAll(BURN, fs) && StoreAll(BURN, fs, NO_BURN) == Outcome(v, NoError)
  {
    fs := BurnSpelled(v);
    BurnIntoAny(v, NO_BURN);
    SpelledIsStored(BURN, fs, EncodeBurn(v), NO_BURN);
  }

  lemma BurnSpelled(v: BurnValue) returns (fs: Fields)
    requires |EncodeBurn(v)| < TWO_63
    ensures Spells(BURN, fs, 0, EncodeBurn(v))
  {
    var f1, f2, f3 := TextField(TAG_1, v.authority), TextField(TAG_2, v.fromAddress), TextField(TAG_3, v.amount);
    Parts(f1, f2, f3, []);
    hide Spells, TextField;
    NoFields(BURN, 3);
    fs := TextInFront(BURN, TAG_3, v.amount, Nil, []);
    fs := TextInFront(BURN, TAG_2, v.fromAddress, fs, f3 + []);
    fs := TextInFront(BURN, TAG_1, v.authority, fs, f2 + (f3 + []));
  }

  /** In that of `MsgUpdateParams` the field `params` is always there, and holds the encoding of
      the params. */
  lemma UpdateInOrder(v: UpdateParamsValue) returns (fs: Fields)
    requires |EncodeUpdateParams(v)| < TWO_63
    ensures Orderly(fs, 0) && FlattenAll(fs) == EncodeUpdateParams(v)
    ensures TakesAll(UPDATE, fs) && StoreAll(UPDATE, fs, NO_UPDATE) == Outcome(v, NoError)
    ensures AllParams(fs) == EncodeParams(v.params)
  {
    fs := UpdateSpelled(v);
    UpdateParamsIntoAny(v, NO_UPDATE);
    SpelledIsStored(UPDATE, fs, EncodeUpdateParams(v), NO_UPDATE);
  }

  lemma UpdateSpelled(v: UpdateParamsValue) returns (fs: Fields)
    requires |EncodeUpdateParams(v)| < TWO_63
    ensures Spells(UPDATE, fs, 0, EncodeUpdateParams(v)) && TakesAll(UPDATE, fs)
    ensures AllParams(fs) == EncodeParams(v.params)
  {
    var f1, f2 := TextField(TAG_1, v.authority), Delimit(TAG_2, EncodeParams(v.params));
    Parts(f1, f2, [], []);
    hide Spells, TextField, Delimit, EncodeParams;
    NoFields(UPDATE, 2);
    var last := DelimitedInFront(UPDATE, TAG_2, EncodeParams(v.params), Nil, []);
    fs := TextInFront(UPDATE, TAG_1, v.authority, last, f2 + []);
    OneParams(fs, last, f1 + (f2 + []), v.authority, EncodeParams(v.params));
  }

  lemma OneParams(fs: Fields, last: Fields, bytes: Bytes, a: Bytes, b: Bytes)
    requires Spells(UPDATE, fs, 0, bytes) && last.Cons? && last.tail == Nil && IsText(last.head, 2, b)
    requires fs == last || (fs.Cons? && fs.tail == last && IsText(fs.head, 1, a))
    ensures TakesAll(UPDATE, fs) && AllParams(fs) == b
  {
    assert AllParams(Nil) == [] && b + [] == b;
  }
}
