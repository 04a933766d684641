/** The messages of the stablecoin module as values: their fields, their encoding field by
    field in order, and what the encoding means to the decoders. */
module Messages {
  import opened Wire
  import opened Grammar
  import opened Decoding

  datatype ParamsValue = ParamsValue(issuer: Bytes, denom: Bytes, paused: bool, maxSupply: Bytes)
  datatype MintValue = MintValue(authority: Bytes, toAddress: Bytes, amount: Bytes)
  datatype BurnValue = BurnValue(authority: Bytes, fromAddress: Bytes, amount: Bytes)
  datatype UpdateParamsValue = UpdateParamsValue(authority: Bytes, params: ParamsValue)

  const NO_PARAMS := ParamsValue([], [], false, [])
  const NO_MINT := MintValue([], [], [])
  const NO_BURN := BurnValue([], [], [])
  const NO_UPDATE := UpdateParamsValue([], NO_PARAMS)

  // ---------------------------------------------------------------- encoding

  const TAG_1: Byte := 0x0a
  const TAG_2: Byte := 0x12
  const TAG_3: Byte := 0x1a
  const TAG_3_BOOL: Byte := 0x18
  const TAG_4: Byte := 0x22

  /** A tag, a length and the bytes. */
  function Delimit(tag: Byte, b: Bytes): Bytes {
    [tag] + VarintBytes(|b|) + b
  }

  /** A string field: absent when empty. */
  function TextField(tag: Byte, b: Bytes): Bytes {
    if b == [] then [] else Delimit(tag, b)
  }

  function BoolField(tag: Byte, v: bool): Bytes {
    if v then [tag, 1] else []
  }

  function EncodeParams(p: ParamsValue): Bytes {
    TextField(TAG_1, p.issuer) + TextField(TAG_2, p.denom) + BoolField(TAG_3_BOOL, p.paused)
        + TextField(TAG_4, p.maxSupply)
  }

  function EncodeMint(v: MintValue): Bytes {
    TextField(TAG_1, v.authority) + TextField(TAG_2, v.toAddress) + TextField(TAG_3, v.amount)
  }

  function EncodeBurn(v: BurnValue): Bytes {
    TextField(TAG_1, v.authority) + TextField(TAG_2, v.fromAddress) + TextField(TAG_3, v.amount)
  }

  /** The `params` field is present even when it is empty. */
  function EncodeUpdateParams(v: UpdateParamsValue): Bytes {
    TextField(TAG_1, v.authority) + Delimit(TAG_2, EncodeParams(v.params))
  }

  // ---------------------------------------------------------------- decoding

  function ParamsKind(number: int): Kind {
    if number == 3 then Scalar else if 1 <= number <= 4 then Delimited else Unknown
  }

  function PutParams(number: int, p: Payload, m: ParamsValue): Outcome<ParamsValue> {
    match p
    case Number(v) => Outcome(if number == 3 then m.(paused := v != 0) else m, NoError)
    case Text(b) => Outcome(if number == 1 then m.(issuer := b)
                            else if number == 2 then m.(denom := b)
                            else if number == 4 then m.(maxSupply := b)
                            else m, NoError)
  }

  function MintKind(number: int): Kind {
    if 1 <= number <= 3 then Delimited else Unknown
  }

  function PutMint(number: int, p: Payload, m: MintValue): Outcome<MintValue> {
    match p
    case Number(_) => Outcome(m, NoError)
    case Text(b) => Outcome(if number == 1 then m.(authority := b)
                            else if number == 2 then m.(toAddress := b)
                            else if number == 3 then m.(amount := b)
                            else m, NoError)
  }

  function PutBurn(number: int, p: Payload, m: BurnValue): Outcome<BurnValue> {
    match p
    case Number(_) => Outcome(m, NoError)
    case Text(b) => Outcome(if number == 1 then m.(authority := b)
                            else if number == 2 then m.(fromAddress := b)
                            else if number == 3 then m.(amount := b)
                            else m, NoError)
  }

  function UpdateKind(number: int): Kind {
    if 1 <= number <= 2 then Delimited else Unknown
  }

  /** The `params` payload is decoded into the params already there. */
  function PutUpdate(number: int, p: Payload, m: UpdateParamsValue): Outcome<UpdateParamsValue> {
    match p
    case Number(_) => Outcome(m, NoError)
    case Text(b) =>
      if number == 1 then Outcome(m.(authority := b), NoError)
      else if number == 2 then
        var r := Decode(PARAMS, b, m.params);
        Outcome(m.(params := r.msg), r.err)
      else Outcome(m, NoError)
  }

  const PARAMS: Codec<ParamsValue> := Codec(ParamsKind, PutParams)
  const MINT: Codec<MintValue> := Codec(MintKind, PutMint)
  const BURN: Codec<BurnValue> := Codec(MintKind, PutBurn)
  const UPDATE: Codec<UpdateParamsValue> := Codec(UpdateKind, PutUpdate)

  /** The declared fields: strings, but for `paused`, which is a varint. */
  lemma DeclaredNumbers(n: int)
    ensures PARAMS.kind(n) == if n in {1, 2, 4} then Delimited else if n == 3 then Scalar else Unknown
    ensures MINT.kind(n) == BURN.kind(n) == if n in {1, 2, 3} then Delimited else Unknown
    ensures UPDATE.kind(n) == if n in {1, 2} then Delimited else Unknown
  {
  }

  // ---------------------------------------------------------------- one field

  lemma TagReadBack(tag: Byte, rest: Bytes)
    requires tag < 128
    ensures Varint([tag] + rest) == Ok(tag, 1)
  {
    assert VarintBytes(tag) == [tag];
    VarintReadBack(tag, rest);
  }

  /** A delimited field alone is one turn of the loop. */
  lemma StepDelimited<M>(c: Codec<M>, tag: Byte, b: Bytes, m: M)
    requires 8 <= tag < 128 && tag % 8 == 2 && c.kind(tag / 8) == Delimited
    requires |Delimit(tag, b)| < TWO_63
    ensures var d := Delimit(tag, b);
            Varint(d[0..]) == Ok(tag, 1) && Step(c, d, 0, m) == Stored(Took(Text(b), |d|), tag / 8, c, m)
  {
    var d := Delimit(tag, b);
    assert d[0..] == d == [tag] + (VarintBytes(|b|) + b);
    TagReadBack(tag, VarintBytes(|b|) + b);
    assert d[1..] == VarintBytes(|b|) + b;
    VarintReadBack(|b|, b);
    assert d[1 + |VarintBytes(|b|)|..|d|] == b;
    assert TakeText(d, 1) == Took(Text(b), |d|);
    assert Int32(tag / 8) == tag / 8;
  }

  /** A delimited field alone decodes to one store. */
  lemma DecodeDelimited<M>(c: Codec<M>, tag: Byte, b: Bytes, m: M)
    requires 8 <= tag < 128 && tag % 8 == 2 && c.kind(tag / 8) == Delimited
    requires |Delimit(tag, b)| < TWO_63
    ensures Decode(c, Delimit(tag, b), m) == c.put(tag / 8, Text(b), m)
  {
    StepDelimited(c, tag, b, m);
    var d, out := Delimit(tag, b), c.put(tag / 8, Text(b), m);
    assert DecodeFrom(c, d, |d|, out.msg) == Outcome(out.msg, NoError);
  }

  lemma DecodeText<M>(c: Codec<M>, tag: Byte, b: Bytes, m: M, m': M)
    requires 8 <= tag < 128 && tag % 8 == 2 && c.kind(tag / 8) == Delimited
    requires |TextField(tag, b)| < TWO_63
    requires if b == [] then m' == m else c.put(tag / 8, Text(b), m) == Outcome(m', NoError)
    ensures Decode(c, TextField(tag, b), m) == Outcome(m', NoError)
  {
    if b != [] {
      DecodeDelimited(c, tag, b, m);
    }
  }

  lemma DecodeBool(v: bool, m: ParamsValue)
    ensures Decode(PARAMS, BoolField(TAG_3_BOOL, v), m) == Outcome(if v then m.(paused := true) else m, NoError)
  {
    if v {
      var d: Bytes := [TAG_3_BOOL, 1];
      assert d[0..] == d == [TAG_3_BOOL] + [1];
      TagReadBack(TAG_3_BOOL, [1]);
      assert d[1..] == [1] + [];
      TagReadBack(1, []);
      assert TakeNumber(d, 1) == Took(Number(1), 2);
      assert DecodeFrom(PARAMS, d, 2, m.(paused := true)) == Outcome(m.(paused := true), NoError);
    }
  }

  // ---------------------------------------------------------------- round trips

  /** The field values of `v` where they are not empty, those of `m` elsewhere. */
  function Over(m: Bytes, v: Bytes): Bytes {
    if v == [] then m else v
  }

  function ParamsOver(m: ParamsValue, v: ParamsValue): ParamsValue {
    ParamsValue(Over(m.issuer, v.issuer), Over(m.denom, v.denom), m.paused || v.paused, Over(m.maxSupply, v.maxSupply))
  }

  /** Decoding an encoding into any target overwrites exactly the non-default fields. */
  lemma ParamsIntoAny(v: ParamsValue, m: ParamsValue)
    requires |EncodeParams(v)| < TWO_63
    ensures Decode(PARAMS, EncodeParams(v), m) == Outcome(ParamsOver(m, v), NoError)
  {
    var m1 := m.(issuer := Over(m.issuer, v.issuer));
    var m2 := m1.(denom := Over(m.denom, v.denom));
    var m3 := m2.(paused := m.paused || v.paused);
    var m4 := m3.(maxSupply := Over(m.maxSupply, v.maxSupply));
    DecodeText(PARAMS, TAG_1, v.issuer, m, m1);
    DecodeText(PARAMS, TAG_2, v.denom, m1, m2);
    DecodeBool(v.paused, m2);
    DecodeText(PARAMS, TAG_4, v.maxSupply, m3, m4);
    var a := TextField(TAG_1, v.issuer) + TextField(TAG_2, v.denom);
    DecodeThen(PARAMS, TextField(TAG_1, v.issuer), TextField(TAG_2, v.denom), m, m1, m2);
    DecodeThen(PARAMS, a, BoolField(TAG_3_BOOL, v.paused), m, m2, m3);
    DecodeThen(PARAMS, a + BoolField(TAG_3_BOOL, v.paused), TextField(TAG_4, v.maxSupply), m, m3, m4);
  }

  lemma MintIntoAny(v: MintValue, m: MintValue)
    requires |EncodeMint(v)| < TWO_63
    ensures Decode(MINT, EncodeMint(v), m)
            == Outcome(MintValue(Over(m.authority, v.authority), Over(m.toAddress, v.toAddress),
               Over(m.amount, v.amount)), NoError)
  {
    var m1 := m.(authority := Over(m.authority, v.authority));
    var m2 := m1.(toAddress := Over(m.toAddress, v.toAddress));
    var m3 := m2.(amount := Over(m.amount, v.amount));
    DecodeText(MINT, TAG_1, v.authority, m, m1);
    DecodeText(MINT, TAG_2, v.toAddress, m1, m2);
    DecodeText(MINT, TAG_3, v.amount, m2, m3);
    DecodeThen(MINT, TextField(TAG_1, v.authority), TextField(TAG_2, v.toAddress), m, m1, m2);
    DecodeThen(MINT, TextField(TAG_1, v.authority) + TextField(TAG_2, v.toAddress), TextField(TAG_3, v.amount),
               m, m2, m3);
  }

  lemma BurnIntoAny(v: BurnValue, m: BurnValue)
    requires |EncodeBurn(v)| < TWO_63
    ensures Decode(BURN, EncodeBurn(v), m)
            == Outcome(BurnValue(Over(m.authority, v.authority), Over(m.fromAddress, v.fromAddress),
               Over(m.amount, v.amount)), NoError)
  {
    var m1 := m.(authority := Over(m.authority, v.authority));
    var m2 := m1.(fromAddress := Over(m.fromAddress, v.fromAddress));
    var m3 := m2.(amount := Over(m.amount, v.amount));
    DecodeText(BURN, TAG_1, v.authority, m, m1);
    DecodeText(BURN, TAG_2, v.fromAddress, m1, m2);
    DecodeText(BURN, TAG_3, v.amount, m2, m3);
    DecodeThen(BURN, TextField(TAG_1, v.authority), TextField(TAG_2, v.fromAddress), m, m1, m2);
    DecodeThen(BURN, TextField(TAG_1, v.authority) + TextField(TAG_2, v.fromAddress), TextField(TAG_3, v.amount),
               m, m2, m3);
  }

  lemma UpdateParamsIntoAny(v: UpdateParamsValue, m: UpdateParamsValue)
    requires |EncodeUpdateParams(v)| < TWO_63
    ensures Decode(UPDATE, EncodeUpdateParams(v), m)
            == Outcome(UpdateParamsValue(Over(m.authority, v.authority), ParamsOver(m.params, v.params)), NoError)
  {
    var m1 := m.(authority := Over(m.authority, v.authority));
    var m2 := m1.(params := ParamsOver(m.params, v.params));
    DecodeText(UPDATE, TAG_1, v.authority, m, m1);
    ParamsIntoAny(v.params, m.params);
    DecodeDelimited(UPDATE, TAG_2, EncodeParams(v.params), m1);
    DecodeThen(UPDATE, TextField(TAG_1, v.authority), Delimit(TAG_2, EncodeParams(v.params)), m, m1, m2);
  }

  /** Encoding then decoding into a zero message gives the message back. */
  lemma RoundTrips(p: ParamsValue, mint: MintValue, burn: BurnValue, update: UpdateParamsValue)
    ensures |EncodeParams(p)| < TWO_63 ==> Decode(PARAMS, EncodeParams(p), NO_PARAMS) == Outcome(p, NoError)
    ensures |EncodeMint(mint)| < TWO_63 ==> Decode(MINT, EncodeMint(mint), NO_MINT) == Outcome(mint, NoError)
    ensures |EncodeBurn(burn)| < TWO_63 ==> Decode(BURN, EncodeBurn(burn), NO_BURN) == Outcome(burn, NoError)
    ensures |EncodeUpdateParams(update)| < TWO_63 ==>
              Decode(UPDATE, EncodeUpdateParams(update), NO_UPDATE) == Outcome(update, NoError)
  {
    if |EncodeParams(p)| < TWO_63 { ParamsIntoAny(p, NO_PARAMS); }
    if |EncodeMint(mint)| < TWO_63 { MintIntoAny(mint, NO_MINT); }
    if |EncodeBurn(burn)| < TWO_63 { BurnIntoAny(burn, NO_BURN); }
    if |EncodeUpdateParams(update)| < TWO_63 { UpdateParamsIntoAny(update, NO_UPDATE); }
  }

  /** Two `params` fields with payloads p1 and p2 act like one with the payload p1 + p2. */
  lemma ParamsFieldsConcatenate(p1: Bytes, p2: Bytes, m: UpdateParamsValue)
    requires |Delimit(TAG_2, p1) + Delimit(TAG_2, p2)| < TWO_63 && |Delimit(TAG_2, p1 + p2)| < TWO_63
    requires Decode(PARAMS, p1, m.params).err == NoError
    ensures Agree(Decode(UPDATE, Delimit(TAG_2, p1 + p2), m),
            Decode(UPDATE, Delimit(TAG_2, p1) + Delimit(TAG_2, p2), m))
  {
    DecodeDelimited(UPDATE, TAG_2, p1, m);
    var m1 := Decode(UPDATE, Delimit(TAG_2, p1), m).msg;
    DecodeDelimited(UPDATE, TAG_2, p2, m1);
    DecodeDelimited(UPDATE, TAG_2, p1 + p2, m);
    MergeLaw(PARAMS, p1, p2, m.params);
    MergeLaw(UPDATE, Delimit(TAG_2, p1), Delimit(TAG_2, p2), m);
  }

  /** The merge law's one gap, met: behind twelve bytes that decode, a length that runs past
      the input is refused for another reason than on its own. */
  lemma MergeErrorsDiffer()
    ensures var a, b: Bytes := Delimit(TAG_1, seq(10, _ => 0)), [TAG_1] + VarintBytes(TWO_63 - 12);
            var m := Decode(MINT, a, NO_MINT);
            && m.err == NoError
            && Decode(MINT, b, m.msg) == Outcome(m.msg, UnexpectedEOF)
            && Decode(MINT, a + b, NO_MINT) == Outcome(m.msg, InvalidLength)
  {
    var a, v: nat := Delimit(TAG_1, seq(10, _ => 0)), TWO_63 - 12;
    var b: Bytes := [TAG_1] + VarintBytes(v);
    DecodeDelimited(MINT, TAG_1, seq(10, _ => 0), NO_MINT);
    SovBounds(v);
    SovIsEncodedSize(v);
    TagReadBack(TAG_1, VarintBytes(v));
    VarintReadBack(v, []);
    assert b[0..] == b && b[1..] == VarintBytes(v) + [];
    assert Int32(TAG_1 / 8) == 1;
    MergeLaw(MINT, a, b, NO_MINT);
    MergeLawExactly(MINT, a, b, NO_MINT);
  }

  // ---------------------------------------------------------------- sizes

  /** What the generated `Size` functions add for a string field. */
  function TextSize(b: Bytes): nat {
    if |b| > 0 then 1 + |b| + Sov(|b|) else 0
  }

  function ParamsSize(v: ParamsValue): nat {
    TextSize(v.issuer) + TextSize(v.denom) + (if v.paused then 2 else 0) + TextSize(v.maxSupply)
  }

  function MintSize(v: MintValue): nat {
    TextSize(v.authority) + TextSize(v.toAddress) + TextSize(v.amount)
  }

  function BurnSize(v: BurnValue): nat {
    TextSize(v.authority) + TextSize(v.fromAddress) + TextSize(v.amount)
  }

  function UpdateSize(v: UpdateParamsValue): nat {
    TextSize(v.authority) + 1 + ParamsSize(v.params) + Sov(ParamsSize(v.params))
  }

  lemma TextSizeIsLength(tag: Byte, b: Bytes)
    ensures |TextField(tag, b)| == TextSize(b)
    ensures |Delimit(tag, b)| == 1 + |b| + Sov(|b|)
  {
    SovIsEncodedSize(|b|);
  }

  /** The size formulas give the length of the encodings. */
  lemma ParamsSizeIsLength(v: ParamsValue)
    ensures ParamsSize(v) == |EncodeParams(v)|
  {
    TextSizeIsLength(TAG_1, v.issuer);
    TextSizeIsLength(TAG_2, v.denom);
    TextSizeIsLength(TAG_4, v.maxSupply);
  }

  lemma MintSizeIsLength(v: MintValue)
    ensures MintSize(v) == |EncodeMint(v)|
  {
    TextSizeIsLength(TAG_1, v.authority);
    TextSizeIsLength(TAG_2, v.toAddress);
    TextSizeIsLength(TAG_3, v.amount);
  }

  lemma BurnSizeIsLength(v: BurnValue)
    ensures BurnSize(v) == |EncodeBurn(v)|
  {
    TextSizeIsLength(TAG_1, v.authority);
    TextSizeIsLength(TAG_2, v.fromAddress);
    TextSizeIsLength(TAG_3, v.amount);
  }

  lemma UpdateSizeIsLength(v: UpdateParamsValue)
    ensures UpdateSize(v) == |EncodeUpdateParams(v)|
  {
    TextSizeIsLength(TAG_1, v.authority);
    ParamsSizeIsLength(v.params);
    TextSizeIsLength(TAG_2, EncodeParams(v.params));
  }

  lemma ParamsThrifty()
    ensures Thrifty(PARAMS, ParamsSize)
  {
    hide Sov;
    forall number, p, m: ParamsValue
      ensures ParamsSize(PARAMS.put(number, p, m).msg) <= ParamsSize(m) + Cost(p)
    {
    }
  }

  lemma MintThrifty()
    ensures Thrifty(MINT, MintSize)
  {
    hide Sov;
    forall number, p, m: MintValue
      ensures MintSize(MINT.put(number, p, m).msg) <= MintSize(m) + Cost(p)
    {
    }
  }

  lemma BurnThrifty()
    ensures Thrifty(BURN, BurnSize)
  {
    hide Sov;
    forall number, p, m: BurnValue
      ensures BurnSize(BURN.put(number, p, m).msg) <= BurnSize(m) + Cost(p)
    {
    }
  }

  lemma {:induction false} SovSubadditive(x: nat, y: nat)
    ensures Sov(x + y) <= Sov(x) + Sov(y)
    decreases x + y
  {
    SovIsEncodedSize(x);
    SovIsEncodedSize(y);
    SovIsEncodedSize(x + y);
    if x + y >= 128 {
      SovIsEncodedSize((x + y) / 128);
      var half := if x >= y then x else y;
      SovMonotone(half, x + y);
      SovIsEncodedSize(half / 128);
      SovMonotone((x + y) / 128, half);
    }
  }

  lemma NestedSize(x: nat, n: nat, y: nat)
    requires y <= x + n
    ensures y + Sov(y) <= x + Sov(x) + n + Sov(n)
  {
    SovMonotone(y, x + n);
    SovSubadditive(x, n);
  }

  lemma UpdateThrifty()
    ensures Thrifty(UPDATE, UpdateSize)
  {
    forall number, p, m: UpdateParamsValue | UPDATE.put(number, p, m).err == NoError
      ensures UpdateSize(UPDATE.put(number, p, m).msg) <= UpdateSize(m) + Cost(p)
    {
      PutUpdatePays(number, p, m);
    }
  }

  lemma PutUpdatePays(number: int, p: Payload, m: UpdateParamsValue)
    requires PutUpdate(number, p, m).err == NoError
    ensures UpdateSize(PutUpdate(number, p, m).msg) <= UpdateSize(m) + Cost(p)
  {
    var m' := PutUpdate(number, p, m).msg;
    if p.Text? && number == 2 {
      ParamsThrifty();
      DecodePays(PARAMS, ParamsSize, p.bytes, 0, m.params);
      NestedSize(ParamsSize(m.params), |p.bytes|, ParamsSize(m'.params));
    }
  }

  /** Re-encoding an accepted input never takes more bytes than the input. */
  lemma ReencodingNeverGrows(d: Bytes)
    ensures Decode(PARAMS, d, NO_PARAMS).err == NoError ==> ParamsSize(Decode(PARAMS, d, NO_PARAMS).msg) <= |d|
    ensures Decode(MINT, d, NO_MINT).err == NoError ==> MintSize(Decode(MINT, d, NO_MINT).msg) <= |d|
    ensures Decode(BURN, d, NO_BURN).err == NoError ==> BurnSize(Decode(BURN, d, NO_BURN).msg) <= |d|
  {
    ParamsThrifty();
    MintThrifty();
    BurnThrifty();
    if Decode(PARAMS, d, NO_PARAMS).err == NoError { DecodePays(PARAMS, ParamsSize, d, 0, NO_PARAMS); }
    if Decode(MINT, d, NO_MINT).err == NoError { DecodePays(MINT, MintSize, d, 0, NO_MINT); }
    if Decode(BURN, d, NO_BURN).err == NoError { DecodePays(BURN, BurnSize, d, 0, NO_BURN); }
  }

  /** For `MsgUpdateParams` the law fails on the empty input, because `params` is always
      written; two bytes are the whole excess. */
  lemma UpdateReencodingGrowsByTwoAtMost(d: Bytes)
    requires Decode(UPDATE, d, NO_UPDATE).err == NoError
    ensures UpdateSize(Decode(UPDATE, d, NO_UPDATE).msg) <= |d| + 2
    ensures d == [] ==> UpdateSize(Decode(UPDATE, d, NO_UPDATE).msg) == 2
  {
    UpdateThrifty();
    assert UpdateSize(NO_UPDATE) == 2 by {
      SovIsEncodedSize(0);
    }
    DecodePays(UPDATE, UpdateSize, d, 0, NO_UPDATE);
  }

  /** Some turn of the loop from index `i` meets a `params` field. */
  ghost predicate HasParams(d: Bytes, i: nat, m: UpdateParamsValue)
    decreases |d| - i
  {
    i < |d| && Step(UPDATE, d, i, m).More?
    && (Int32(Varint(d[i..]).value / 8) == 2 || HasParams(d, Step(UPDATE, d, i, m).next, Step(UPDATE, d, i, m).msg))
  }

  /** The first `params` field pays for the whole `params` part of the size. */
  lemma FirstParamsPays(d: Bytes, i: nat, m: UpdateParamsValue)
    requires i < |d| && Step(UPDATE, d, i, m).More? && Int32(Varint(d[i..]).value / 8) == 2
    requires m.params == NO_PARAMS && TextSize(m.authority) <= i
    ensures UpdateSize(Step(UPDATE, d, i, m).msg) <= Step(UPDATE, d, i, m).next
  {
    hide Varint, Sov;
    var j := i + Varint(d[i..]).size;
    var b := TakeText(d, j).payload.bytes;
    ParamsThrifty();
    DecodePays(PARAMS, ParamsSize, b, 0, NO_PARAMS);
    SovMonotone(ParamsSize(Decode(PARAMS, b, NO_PARAMS).msg), |b|);
    VarintAtLeastSov(d[j..]);
  }

  lemma OtherTurnPays(d: Bytes, i: nat, m: UpdateParamsValue)
    requires i < |d| && Step(UPDATE, d, i, m).More? && Int32(Varint(d[i..]).value / 8) != 2
    requires m.params == NO_PARAMS && TextSize(m.authority) <= i
    ensures var r := Step(UPDATE, d, i, m); r.msg.params == NO_PARAMS && TextSize(r.msg.authority) <= r.next
  {
    hide Varint, Sov, SkipAt;
    var j := i + Varint(d[i..]).size;
    if Int32(Varint(d[i..]).value / 8) == 1 {
      VarintAtLeastSov(d[j..]);
    }
  }

  /** With a `params` field in the input, re-encoding `MsgUpdateParams` does not grow either. */
  lemma {:induction false} UpdateWithParamsNeverGrows(d: Bytes, i: nat, m: UpdateParamsValue)
    requires DecodeFrom(UPDATE, d, i, m).err == NoError && HasParams(d, i, m)
    requires m.params == NO_PARAMS && TextSize(m.authority) <= i
    ensures UpdateSize(DecodeFrom(UPDATE, d, i, m).msg) <= |d|
    decreases |d| - i
  {
    hide Varint, UpdateSize;
    var r := Step(UPDATE, d, i, m);
    if Int32(Varint(d[i..]).value / 8) == 2 {
      FirstParamsPays(d, i, m);
      UpdateThrifty();
      DecodePays(UPDATE, UpdateSize, d, r.next, r.msg);
    } else {
      OtherTurnPays(d, i, m);
      UpdateWithParamsNeverGrows(d, r.next, r.msg);
    }
  }

  lemma {:induction false} WithoutParams(d: Bytes, i: nat, m: UpdateParamsValue)
    requires DecodeFrom(UPDATE, d, i, m).err == NoError && !HasParams(d, i, m)
    ensures DecodeFrom(UPDATE, d, i, m).msg.params == m.params
    decreases |d| - i
  {
    hide Varint, SkipAt, TakeText;
    if i < |d| {
      WithoutParams(d, Step(UPDATE, d, i, m).next, Step(UPDATE, d, i, m).msg);
    }
  }

  /** A field takes two bytes at least. */
  lemma FieldCostsTwo(d: Bytes, i: nat)
    requires i <= |d| && SkipAt(d, i).At?
    ensures SkipAt(d, i).pos >= i + 2
  {
    var tag := Varint(d[i..]);
    assert Body(d[i..], tag.value % 8, tag.size).pos > tag.size;
  }

  /** A turn that is not about `params` pays for the authority it stores. */
  lemma AuthorityPays(d: Bytes, i: nat, m: UpdateParamsValue)
    requires i < |d| && Step(UPDATE, d, i, m).More? && Int32(Varint(d[i..]).value / 8) != 2
    ensures var r := Step(UPDATE, d, i, m);
            && r.next >= i + 2
            && (r.msg == m || TextSize(r.msg.authority) <= r.next - i)
  {
    hide Varint, Sov, SkipAt;
    var j := i + Varint(d[i..]).size;
    if Int32(Varint(d[i..]).value / 8) == 1 {
      VarintAtLeastSov(d[j..]);
    } else {
      FieldCostsTwo(d, i);
    }
  }

  /** Once the bytes read pay for an empty `params` field too, they do so to the end. */
  lemma {:induction false} PaidWithoutParams(d: Bytes, i: nat, m: UpdateParamsValue)
    requires i <= |d| && DecodeFrom(UPDATE, d, i, m).err == NoError && !HasParams(d, i, m)
    requires TextSize(m.authority) + 2 <= i
    ensures TextSize(DecodeFrom(UPDATE, d, i, m).msg.authority) + 2 <= |d|
    decreases |d| - i
  {
    hide Varint, Step, TextSize;
    if i < |d| {
      AuthorityPays(d, i, m);
      PaidWithoutParams(d, Step(UPDATE, d, i, m).next, Step(UPDATE, d, i, m).msg);
    }
  }

  /** One authority field that is not empty and is all of the input, its tag and length
      spelled with at most one byte more than they need. */
  predicate LoneAuthority(d: Bytes) {
    var tag := Varint(d);
    && tag.Ok? && tag.value % 8 == 2 && Int32(tag.value / 8) == 1
    && var length := Varint(d[tag.size..]);
       && length.Ok? && 0 < length.value < TWO_63 && tag.size + length.size + length.value == |d|
       && tag.size + length.size <= 1 + Sov(length.value) + 1
  }

  lemma LoneAuthorityStep(d: Bytes)
    requires LoneAuthority(d) && |d| < TWO_63
    ensures Step(UPDATE, d, 0, NO_UPDATE).More? && Step(UPDATE, d, 0, NO_UPDATE).next == |d|
    ensures Step(UPDATE, d, 0, NO_UPDATE).msg.params == NO_PARAMS && Int32(Varint(d[0..]).value / 8) != 2
    ensures |d| < TextSize(Step(UPDATE, d, 0, NO_UPDATE).msg.authority) + 2
  {
    hide Varint, Sov;
    assert d[0..] == d;
    assert TakeText(d, Varint(d).size).Took?;
  }

  /** A first turn that does not pay for an empty `params` field stores an authority, spelled
      tightly. */
  lemma UnpaidTurn(d: Bytes)
    requires d != [] && Step(UPDATE, d, 0, NO_UPDATE).More? && Int32(Varint(d[0..]).value / 8) != 2
    requires var r := Step(UPDATE, d, 0, NO_UPDATE); r.next < TextSize(r.msg.authority) + 2
    ensures Step(UPDATE, d, 0, NO_UPDATE).next == |d| ==> LoneAuthority(d)
  {
    hide Varint, Sov, SkipAt;
    assert d[0..] == d;
    AuthorityPays(d, 0, NO_UPDATE);
  }

  /** Re-encoding `MsgUpdateParams` grows exactly for the empty input and for a lone authority
      field: every other input has two bytes to spare for an empty `params` field, or has one. */
  lemma UpdateReencodingGrowsIff(d: Bytes)
    requires |d| < TWO_63 && Decode(UPDATE, d, NO_UPDATE).err == NoError
    ensures UpdateSize(Decode(UPDATE, d, NO_UPDATE).msg) > |d| <==> d == [] || LoneAuthority(d)
  {
    hide HasParams, Varint, LoneAuthority, Step;
    SovIsEncodedSize(0);
    LoopTurn(UPDATE, d, 0, NO_UPDATE);
    if d != [] {
      HasParamsNext(d, 0, NO_UPDATE);
      var r := Step(UPDATE, d, 0, NO_UPDATE);
      if LoneAuthority(d) {
        LoneAuthorityStep(d);
        LoopTurn(UPDATE, d, |d|, r.msg);
      } else if HasParams(d, 0, NO_UPDATE) {
        UpdateWithParamsNeverGrows(d, 0, NO_UPDATE);
      } else {
        WithoutParams(d, 0, NO_UPDATE);
        NotLonePays(d);
      }
    }
  }

  lemma NotLonePays(d: Bytes)
    requires d != [] && Decode(UPDATE, d, NO_UPDATE).err == NoError && !HasParams(d, 0, NO_UPDATE) && !LoneAuthority(d)
    ensures TextSize(Decode(UPDATE, d, NO_UPDATE).msg.authority) + 2 <= |d|
  {
    hide Varint, LoneAuthority, Step, Sov;
    HasParamsNext(d, 0, NO_UPDATE);
    var r := Step(UPDATE, d, 0, NO_UPDATE);
    AuthorityPays(d, 0, NO_UPDATE);
    if TextSize(r.msg.authority) + 2 <= r.next {
      PaidWithoutParams(d, r.next, r.msg);
    } else {
      UnpaidTurn(d);
      LoopTurn(UPDATE, d, r.next, r.msg);
      HasParamsNext(d, r.next, r.msg);
      AuthorityPays(d, r.next, r.msg);
      var r2 := Step(UPDATE, d, r.next, r.msg);
      PaidWithoutParams(d, r2.next, r2.msg);
    }
  }

  lemma HasParamsNext(d: Bytes, i: nat, m: UpdateParamsValue)
    requires i < |d|
    ensures Step(UPDATE, d, i, m).More? ==> Varint(d[i..]).Ok?
    ensures Step(UPDATE, d, i, m).More? && Int32(Varint(d[i..]).value / 8) == 2 ==> HasParams(d, i, m)
  {
  }
}
