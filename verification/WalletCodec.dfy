/** The wallet's handwritten codecs for the mint and burn messages. They write front to
    back through a protobufjs writer and read through a protobufjs reader. A string stands
    for its bytes on the wire. */
module WalletCodec {
  import Decimal
  import opened Wire
  import opened Grammar
  import opened Decoding
  import opened Messages

  // ---------------------------------------------------------------- writing

  class Writer {
    var buf: Bytes

    constructor ()
      ensures buf == []
    {
      buf := [];
    }

    /** Writes a varint of 32 bits. */
    method Uint32(v: nat) returns (w: Writer)
      modifies this
      ensures w == this && buf == old(buf) + VarintBytes(v % TWO_32)
    {
      var x := v % TWO_32;
      while x >= 128
        invariant 0 <= x && buf + VarintBytes(x) == old(buf) + VarintBytes(v % TWO_32)
      {
        buf := buf + [x % 128 + 128];
        x := x / 128;
      }
      buf := buf + [x];
      w := this;
    }

    /** Writes a length and the bytes. */
    method Text(s: Bytes)
      modifies this
      ensures buf == old(buf) + VarintBytes(|s| % TWO_32) + s
    {
      var w := Uint32(|s|);
      buf := buf + s;
    }
  }

  /** What the wallet writes for a string field. */
  function WalletField(tag: nat, s: Bytes): Bytes {
    if s == [] then [] else VarintBytes(tag) + VarintBytes(|s| % TWO_32) + s
  }

  function WalletMint(m: MintValue): Bytes {
    WalletField(10, m.authority) + WalletField(18, m.toAddress) + WalletField(26, m.amount)
  }

  function WalletBurn(m: BurnValue): Bytes {
    WalletField(10, m.authority) + WalletField(18, m.fromAddress) + WalletField(26, m.amount)
  }

  /** A line of the wallet's `encode`. */
  method WriteField(tag: nat, s: Bytes, writer: Writer)
    requires tag < TWO_32
    modifies writer
    ensures writer.buf == old(writer.buf) + WalletField(tag, s)
  {
    hide VarintBytes;
    if s != [] {
      var w := writer.Uint32(tag);
      assert tag % TWO_32 == tag;
      w.Text(s);
    }
  }

  method WriteMint(message: MintValue, writer: Writer)
    modifies writer
    ensures writer.buf == old(writer.buf) + WalletMint(message)
  {
    hide WalletField;
    WriteField(10, message.authority, writer);
    WriteField(18, message.toAddress, writer);
    WriteField(26, message.amount, writer);
  }

  method WriteBurn(message: BurnValue, writer: Writer)
    modifies writer
    ensures writer.buf == old(writer.buf) + WalletBurn(message)
  {
    hide WalletField;
    WriteField(10, message.authority, writer);
    WriteField(18, message.fromAddress, writer);
    WriteField(26, message.amount, writer);
  }

  lemma VarintsAgree(u: nat, v: nat, x: Bytes, y: Bytes)
    requires u < TWO_64 && v < TWO_64 && VarintBytes(u) + x == VarintBytes(v) + y
    ensures u == v && x == y
  {
    hide Varint;
    VarintReadBack(u, x);
    VarintReadBack(v, y);
    assert x == (VarintBytes(u) + x)[|VarintBytes(u)|..];
    assert y == (VarintBytes(v) + y)[|VarintBytes(v)|..];
  }

  lemma TailsAgree(s: Bytes, x: Bytes, y: Bytes)
    requires s + x == s + y
    ensures x == y
  {
    assert x == (s + x)[|s|..] && y == (s + y)[|s|..];
  }

  /** A string field agrees with the chain's exactly when its length fits 32 bits; what
      follows can then be compared on its own. */
  lemma FieldsAgree(tag: Byte, s: Bytes, rest: Bytes, rest': Bytes)
    requires tag < 128 && |s| < TWO_64
    ensures WalletField(tag, s) + rest == TextField(tag, s) + rest' <==> |s| < TWO_32 && rest == rest'
  {
    if s == [] {
      assert [] + rest == rest && [] + rest' == rest';
    } else {
      assert VarintBytes(tag) == [tag];
      LongFieldsAgree([tag], s, rest, rest');
    }
  }

  lemma LongFieldsAgree(tag: Bytes, s: Bytes, rest: Bytes, rest': Bytes)
    requires |s| < TWO_64
    ensures tag + VarintBytes(|s| % TWO_32) + s + rest == tag + VarintBytes(|s|) + s + rest' <==>
            |s| < TWO_32 && rest == rest'
  {
    hide VarintBytes;
    var n, n' := VarintBytes(|s| % TWO_32), VarintBytes(|s|);
    FourParts(tag, n, s, rest);
    FourParts(tag, n', s, rest');
    if tag + n + s + rest == tag + n' + s + rest' {
      TailsAgree(tag, n + (s + rest), n' + (s + rest'));
      VarintsAgree(|s| % TWO_32, |s|, s + rest, s + rest');
      TailsAgree(s, rest, rest');
    }
  }

  lemma FourParts(a: Bytes, b: Bytes, c: Bytes, d: Bytes)
    ensures a + b + c + d == a + (b + (c + d))
  {
  }

  /** Wallet and chain write the same bytes, exactly when the lengths fit 32 bits. */
  lemma WalletWritesAsChain(mint: MintValue, burn: BurnValue)
    requires |mint.authority| < TWO_64 && |mint.toAddress| < TWO_64 && |mint.amount| < TWO_64
    requires |burn.authority| < TWO_64 && |burn.fromAddress| < TWO_64 && |burn.amount| < TWO_64
    ensures WalletMint(mint) == EncodeMint(mint) <==>
            |mint.authority| < TWO_32 && |mint.toAddress| < TWO_32 && |mint.amount| < TWO_32
    ensures WalletBurn(burn) == EncodeBurn(burn) <==>
            |burn.authority| < TWO_32 && |burn.fromAddress| < TWO_32 && |burn.amount| < TWO_32
  {
    ThreeFieldsAgree(mint.authority, mint.toAddress, mint.amount);
    ThreeFieldsAgree(burn.authority, burn.fromAddress, burn.amount);
  }

  lemma ThreeFieldsAgree(a: Bytes, b: Bytes, c: Bytes)
    requires |a| < TWO_64 && |b| < TWO_64 && |c| < TWO_64
    ensures WalletField(10, a) + WalletField(18, b) + WalletField(26, c)
            == TextField(TAG_1, a) + TextField(TAG_2, b) + TextField(TAG_3, c)
            <==> |a| < TWO_32 && |b| < TWO_32 && |c| < TWO_32
  {
    var wc, tc := WalletField(26, c), TextField(TAG_3, c);
    var wb, tb := WalletField(18, b) + wc, TextField(TAG_2, b) + tc;
    assert WalletField(10, a) + WalletField(18, b) + wc == WalletField(10, a) + wb;
    assert TextField(TAG_1, a) + TextField(TAG_2, b) + tc == TextField(TAG_1, a) + tb;
    assert wc + [] == wc && tc + [] == tc;
    FieldsAgree(TAG_3, c, [], []);
    FieldsAgree(TAG_2, b, wc, tc);
    FieldsAgree(TAG_1, a, wb, tb);
  }

  // ---------------------------------------------------------------- reading

  /** What the reader makes of varints that 32 bits do not need: one of more than five bytes
      where it reads a number, and one of more than ten that it only steps over. */
  datatype Library = Library(long: Bytes -> Parse, overlong: Bytes -> Parse)

  /** Whatever the library does, it stays inside the input and yields 32 bits. */
  function Sane(r: Parse, s: Bytes): (p: Parse)
    ensures p.Ok? ==> 1 <= p.size <= |s| && p.value < TWO_32
    ensures p.Fail? ==> p.error != NoError
  {
    match r
    case Ok(v, n) => if 1 <= n <= |s| then Ok(v % TWO_32, n) else Fail(UnexpectedEOF)
    case Fail(e) => Fail(if e == NoError then UnexpectedEOF else e)
  }

  /** The reader's `uint32` on the rest `s` of the input. */
  function Number32(lib: Library, s: Bytes): (r: Parse)
    ensures r.Ok? ==> 1 <= r.size <= |s|
    ensures r.Fail? ==> r.error != NoError
  {
    match Varint(s)
    case Ok(v, n) => if n <= 5 then Ok(v % TWO_32, n) else Sane(lib.long(s), s)
    case Fail(e) => if |s| < 5 then Fail(e) else Sane(lib.long(s), s)
  }

  function Read32(lib: Library, d: Bytes, i: nat): (r: Parse)
    requires i <= |d|
    ensures r.Ok? ==> 1 <= r.size && i + r.size <= |d|
    ensures r.Fail? ==> r.error != NoError
  {
    Number32(lib, d[i..])
  }

  function ReadString(lib: Library, d: Bytes, i: nat): (r: Taken)
    requires i <= |d|
    ensures r.Took? ==> i < r.next <= |d| && r.payload.Text?
    ensures r.NotTaken? ==> r.error != NoError
  {
    match Read32(lib, d, i)
    case Fail(e) => NotTaken(e)
    case Ok(v, n) => if i + n + v > |d| then NotTaken(UnexpectedEOF) else Took(Text(d[i + n..i + n + v]), i + n + v)
  }

  function Forward(d: Bytes, i: nat, n: nat): Scan {
    if i + n > |d| then Bad(UnexpectedEOF) else At(i + n)
  }

  function SkipVarint(lib: Library, d: Bytes, i: nat): (r: Scan)
    requires i <= |d|
    ensures r.At? ==> i < r.pos <= |d|
    ensures r.Bad? ==> r.error != NoError
  {
    match Varint(d[i..])
    case Ok(_, n) => At(i + n)
    case Fail(e) =>
      if |d| - i < 10 then Bad(e)
      else match Sane(lib.overlong(d[i..]), d[i..])
        case Ok(_, n) => At(i + n)
        case Fail(e') => Bad(e')
  }

  /** The reader's `skipType`, which recurses into groups. */
  function SkipType(lib: Library, d: Bytes, wireType: nat, i: nat): (r: Scan)
    requires i <= |d|
    ensures r.At? ==> i <= r.pos <= |d|
    ensures r.Bad? ==> r.error != NoError
    decreases |d| - i, 1
  {
    match wireType
    case 0 => SkipVarint(lib, d, i)
    case 1 => Forward(d, i, 8)
    case 2 => (match Read32(lib, d, i) case Ok(v, n) => Forward(d, i + n, v) case Fail(e) => Bad(e))
    case 3 => SkipGroup(lib, d, i)
    case 5 => Forward(d, i, 4)
    case _ => Bad(IllegalWireType(wireType))
  }

  function SkipGroup(lib: Library, d: Bytes, i: nat): (r: Scan)
    requires i <= |d|
    ensures r.At? ==> i < r.pos <= |d|
    ensures r.Bad? ==> r.error != NoError
    decreases |d| - i, 0
  {
    match Read32(lib, d, i)
    case Fail(e) => Bad(e)
    case Ok(tag, n) =>
      if tag % 8 == 4 then At(i + n)
      else match SkipType(lib, d, tag % 8, i + n)
        case Bad(e) => Bad(e)
        case At(p) => SkipGroup(lib, d, p)
  }

  /** One turn of the wallet's loop: the wire type of a declared field is not looked at. */
  function WalletStep<M>(lib: Library, c: Codec<M>, d: Bytes, i: nat, m: M): (r: Turn<M>)
    requires i <= |d|
    ensures r.More? ==> i < r.next <= |d|
  {
    match Read32(lib, d, i)
    case Fail(e) => Stop(m, e)
    case Ok(tag, n) =>
      if c.kind(tag / 8) == Delimited then Stored(ReadString(lib, d, i + n), tag / 8, c, m)
      else match SkipType(lib, d, tag % 8, i + n)
        case Bad(e) => Stop(m, e)
        case At(p) => More(p, m)
  }

  /** The wallet's loop from `i` until `end` is reached or passed; a field may run past it. */
  function WalletDecodeFrom<M>(lib: Library, c: Codec<M>, d: Bytes, i: nat, end: nat, m: M): Outcome<M>
    requires i <= |d|
    decreases |d| - i
  {
    if i >= end then Outcome(m, NoError)
    else match WalletStep(lib, c, d, i, m)
      case Stop(m', e) => Outcome(m', e)
      case More(next, m') => WalletDecodeFrom(lib, c, d, next, end, m')
  }

  /** Where the loop has read to when it ends. */
  function WalletStop<M>(lib: Library, c: Codec<M>, d: Bytes, i: nat, end: nat, m: M): (p: nat)
    requires i <= |d|
    ensures i <= p <= |d|
    decreases |d| - i
  {
    if i >= end then i
    else match WalletStep(lib, c, d, i, m)
      case Stop(_, _) => i
      case More(next, m') => WalletStop(lib, c, d, next, end, m')
  }

  class Reader {
    const lib: Library
    const buf: Bytes
    var pos: nat

    constructor (lib: Library, buf: Bytes)
      ensures this.lib == lib && this.buf == buf && pos == 0
    {
      this.lib, this.buf, pos := lib, buf, 0;
    }

    method Uint32() returns (v: nat, err: Error)
      requires pos <= |buf|
      modifies this
      ensures old(pos) <= pos <= |buf| && (err == NoError ==> old(pos) < pos)
      ensures match Read32(lib, buf, old(pos))
              case Ok(x, n) => err == NoError && v == x && pos == old(pos) + n
              case Fail(e) => err == e
    {
      match Read32(lib, buf, pos)
      case Ok(x, n) => v, err, pos := x, NoError, pos + n;
      case Fail(e) => v, err := 0, e;
    }

    method Text() returns (s: Bytes, err: Error)
      requires pos <= |buf|
      modifies this
      ensures old(pos) <= pos <= |buf|
      ensures match ReadString(lib, buf, old(pos))
              case Took(p, next) => err == NoError && p == Payload.Text(s) && pos == next
              case NotTaken(e) => err == e
    {
      match ReadString(lib, buf, pos)
      case Took(p, next) => s, err, pos := p.bytes, NoError, next;
      case NotTaken(e) => s, err := [], e;
    }

    method Skip(wireType: nat) returns (err: Error)
      requires pos <= |buf|
      modifies this
      ensures old(pos) <= pos <= |buf|
      ensures match SkipType(lib, buf, wireType, old(pos))
              case At(p) => err == NoError && pos == p
              case Bad(e) => err == e
    {
      match SkipType(lib, buf, wireType, pos)
      case At(p) => err, pos := NoError, p;
      case Bad(e) => err := e;
    }
  }

  // ---------------------------------------------------------------- which varints are read

  /** A condition on the varints of a field: on its tags and on its lengths, each given with
      the rest of the input that it starts. */
  datatype Reading = Reading(tag: Bytes -> bool, length: Bytes -> bool)

  /** The library reads a tag modulo 2^32 and a length as it is. */
  function Standard(lib: Library): Reading {
    Reading((s: Bytes) => Varint(s).Ok? ==> Number32(lib, s) == Ok(Varint(s).value % TWO_32, Varint(s).size),
            (s: Bytes) => Varint(s).Ok? ==> Number32(lib, s) == Varint(s))
  }

  /** Tags and lengths take at most five bytes, and lengths fit 32 bits. */
  const SHORT: Reading :=
    Reading((s: Bytes) => Varint(s).Ok? ==> Varint(s).size <= 5,
            (s: Bytes) => Varint(s).Ok? ==> Varint(s).size <= 5 && Varint(s).value < TWO_32)

  /** The tags and lengths inside a payload at `j`, all of them if it is a group. */
  ghost predicate BodyReads(r: Reading, s: Bytes, wireType: nat, j: nat)
    requires j <= |s|
    decreases |s| - j, 1
  {
    if wireType == 2 then r.length(s[j..]) else wireType == 3 ==> GroupReads(r, s, j)
  }

  ghost predicate GroupReads(r: Reading, s: Bytes, j: nat)
    requires j <= |s|
    decreases |s| - j, 0
  {
    && r.tag(s[j..])
    && match Varint(s[j..])
       case Fail(_) => true
       case Ok(tag, n) =>
         tag % 8 != 4 ==>
           && BodyReads(r, s, tag % 8, j + n)
           && match Body(s, tag % 8, j + n)
              case Bad(_) => true
              case At(p) => p <= |s| ==> GroupReads(r, s, p)
  }

  /** The tags and lengths that a turn of the chain's loop at `i` meets. */
  ghost predicate TurnReads<M>(r: Reading, c: Codec<M>, d: Bytes, i: nat)
    requires i <= |d|
  {
    && r.tag(d[i..])
    && match Varint(d[i..])
       case Fail(_) => true
       case Ok(tag, n) =>
         if c.kind(Int32(tag / 8)) == Delimited then r.length(d[i + n..]) else BodyReads(r, d[i..], tag % 8, n)
  }

  ghost predicate RunReads<M>(r: Reading, c: Codec<M>, d: Bytes, i: nat, m: M)
    decreases |d| - i
  {
    i < |d| ==>
      && TurnReads(r, c, d, i)
      && (Step(c, d, i, m).More? ==> RunReads(r, c, d, Step(c, d, i, m).next, Step(c, d, i, m).msg))
  }

  ghost predicate Implies(r: Reading, r': Reading) {
    forall s :: (r.tag(s) ==> r'.tag(s)) && (r.length(s) ==> r'.length(s))
  }

  /** Five bytes are enough for every library. */
  lemma ShortIsStandard(lib: Library)
    ensures Implies(SHORT, Standard(lib))
  {
  }

  lemma {:induction false} BodyImplies(r: Reading, r': Reading, s: Bytes, wireType: nat, j: nat)
    requires j <= |s| && Implies(r, r') && BodyReads(r, s, wireType, j)
    ensures BodyReads(r', s, wireType, j)
    decreases |s| - j, 1
  {
    hide Varint, Body;
    if wireType == 3 {
      GroupImplies(r, r', s, j);
    }
  }

  lemma {:induction false} GroupImplies(r: Reading, r': Reading, s: Bytes, j: nat)
    requires j <= |s| && Implies(r, r') && GroupReads(r, s, j)
    ensures GroupReads(r', s, j)
    decreases |s| - j, 0
  {
    hide Varint, Body;
    if Varint(s[j..]).Ok? && Varint(s[j..]).value % 8 != 4 {
      var wireType, k := Varint(s[j..]).value % 8, j + Varint(s[j..]).size;
      BodyImplies(r, r', s, wireType, k);
      if Body(s, wireType, k).At? && Body(s, wireType, k).pos <= |s| {
        GroupImplies(r, r', s, Body(s, wireType, k).pos);
      }
    }
  }

  lemma {:induction false} RunImplies<M>(r: Reading, r': Reading, c: Codec<M>, d: Bytes, i: nat, m: M)
    requires Implies(r, r') && RunReads(r, c, d, i, m)
    ensures RunReads(r', c, d, i, m)
    decreases |d| - i
  {
    hide Varint, Step, BodyReads;
    if i < |d| {
      if Varint(d[i..]).Ok? && c.kind(Int32(Varint(d[i..]).value / 8)) != Delimited {
        BodyImplies(r, r', d[i..], Varint(d[i..]).value % 8, Varint(d[i..]).size);
      }
      if Step(c, d, i, m).More? {
        RunImplies(r, r', c, d, Step(c, d, i, m).next, Step(c, d, i, m).msg);
      }
    }
  }

  // ---------------------------------------------------------------- agreement of a turn

  lemma {:induction false} SkipTypeAgrees(lib: Library, d: Bytes, i: nat, wireType: nat, j: nat)
    requires i <= |d| && i + j <= |d| && BodyReads(Standard(lib), d[i..], wireType, j)
    requires var r := Body(d[i..], wireType, j); r.At? && i + r.pos <= |d|
    ensures SkipType(lib, d, wireType, i + j) == At(i + Body(d[i..], wireType, j).pos)
    decreases |d| - i - j, 1
  {
    hide Varint, Number32;
    assert d[i..][j..] == d[i + j..];
    if wireType == 3 {
      SkipGroupAgrees(lib, d, i, j);
    }
  }

  lemma {:induction false} SkipGroupAgrees(lib: Library, d: Bytes, i: nat, j: nat)
    requires i <= |d| && i + j <= |d| && GroupReads(Standard(lib), d[i..], j)
    requires GroupRest(d[i..], j).At?
    ensures SkipGroup(lib, d, i + j) == At(i + GroupRest(d[i..], j).pos)
    decreases |d| - i - j, 0
  {
    hide Varint, Body, SkipType, SkipGroup, Number32, BodyReads;
    assert d[i..][j..] == d[i + j..];
    var wireType, k := Varint(d[i + j..]).value % 8, j + Varint(d[i + j..]).size;
    if wireType == 4 {
      SkipGroupEnd(lib, d, i + j);
    } else {
      SkipTypeAgrees(lib, d, i, wireType, k);
      var p := Body(d[i..], wireType, k).pos;
      SkipGroupAgrees(lib, d, i, p);
      SkipGroupStep(lib, d, i + j, wireType, i + k, i + p);
    }
  }

  /** Truncating a tag to 32 bits keeps its wire type and 29 bits of its number. */
  lemma LowBits(v: nat)
    ensures v % TWO_32 % 8 == v % 8 && v % TWO_32 / 8 == v / 8 % 0x2000_0000
  {
    var q, r := v / TWO_32, v % TWO_32;
    assert v == TWO_32 * q + r;
    assert v / 8 == 0x2000_0000 * q + r / 8;
    Mod29(q, r / 8);
  }

  lemma Mod29(q: nat, r: nat)
    requires r < 0x2000_0000
    ensures (0x2000_0000 * q + r) % 0x2000_0000 == r
  {
  }

  lemma SkipGroupEnd(lib: Library, d: Bytes, i: nat)
    requires i <= |d| && Varint(d[i..]).Ok? && Varint(d[i..]).value % 8 == 4 && Standard(lib).tag(d[i..])
    ensures SkipGroup(lib, d, i) == At(i + Varint(d[i..]).size)
  {
    hide Varint, SkipType, Number32;
    LowBits(Varint(d[i..]).value);
  }

  lemma SkipGroupStep(lib: Library, d: Bytes, i: nat, wireType: nat, j: nat, p: nat)
    requires i <= |d| && Varint(d[i..]).Ok? && wireType == Varint(d[i..]).value % 8 != 4 && Standard(lib).tag(d[i..])
    requires j == i + Varint(d[i..]).size && SkipType(lib, d, wireType, j) == At(p)
    ensures SkipGroup(lib, d, i) == SkipGroup(lib, d, p)
  {
    hide Varint, SkipType, Number32;
    LowBits(Varint(d[i..]).value);
    assert Read32(lib, d, i) == Ok(Varint(d[i..]).value % TWO_32, j - i);
  }

  /** A codec that, like those of mint and burn, declares strings only, under small numbers. */
  ghost predicate TextOnly<M>(c: Codec<M>) {
    && (forall n :: c.kind(n) != Scalar)
    && (forall n :: c.kind(n) == Delimited ==> 0 < n < 16)
  }

  /** A stored string can be told from what was there before. */
  ghost predicate Visible<M(!new)>(c: Codec<M>) {
    forall n, b :: c.kind(n) == Delimited ==> Shows(c, n, b)
  }

  ghost predicate Shows<M(!new)>(c: Codec<M>, n: int, b: Bytes) {
    exists m :: c.put(n, Text(b), m) != Outcome(m, NoError)
  }

  /** The chain dispatches on the tag's number truncated to 32 bits, the wallet on the number
      of the tag truncated to 32 bits. The two go together unless the wallet's number alone
      is declared. */
  predicate TagAgrees<M>(c: Codec<M>, tag: nat) {
    c.kind(tag % TWO_32 / 8) == Delimited ==> Int32(tag / 8) == tag % TWO_32 / 8
  }

  lemma DeclaredAgrees<M>(c: Codec<M>, tag: nat)
    requires TextOnly(c) && c.kind(Int32(tag / 8)) == Delimited
    ensures Int32(tag / 8) == tag % TWO_32 / 8
  {
    LowBits(tag);
    LowNumber(tag / 8);
  }

  lemma LowNumber(k: nat)
    requires 0 < Int32(k) < 16
    ensures k % 0x2000_0000 == Int32(k)
  {
    assert k == 0x2000_0000 * (8 * (k / TWO_32)) + k % TWO_32;
    Mod29(8 * (k / TWO_32), k % TWO_32);
  }

  /** For both messages, in numbers: the tags part where the low 29 bits of the field number are
      1, 2 or 3 and its low 32 bits are not. */
  lemma TagsPart(tag: nat)
    ensures TagAgrees(MINT, tag) <==> (1 <= tag / 8 % 0x2000_0000 <= 3 ==> 1 <= Int32(tag / 8) <= 3)
    ensures TagAgrees(BURN, tag) <==> TagAgrees(MINT, tag)
  {
    LowBits(tag);
    if 1 <= Int32(tag / 8) <= 3 {
      LowNumber(tag / 8);
    }
  }

  lemma SkipAgrees(lib: Library, d: Bytes, i: nat)
    requires i <= |d| && SkipAt(d, i).At?
    requires Varint(d[i..]).Ok? && BodyReads(Standard(lib), d[i..], Varint(d[i..]).value % 8, Varint(d[i..]).size)
    ensures i + Varint(d[i..]).size <= |d|
    ensures SkipType(lib, d, Varint(d[i..]).value % 8, i + Varint(d[i..]).size) == SkipAt(d, i)
  {
    hide Varint, Body, SkipType, BodyReads;
    SkipTypeAgrees(lib, d, i, Varint(d[i..]).value % 8, Varint(d[i..]).size);
  }

  lemma TextAgrees(lib: Library, d: Bytes, j: nat)
    requires j <= |d| && TakeText(d, j).Took? && Standard(lib).length(d[j..])
    ensures ReadString(lib, d, j) == TakeText(d, j)
  {
    hide Varint, Number32;
  }

  lemma StepAgrees<M>(lib: Library, c: Codec<M>, d: Bytes, i: nat, m: M)
    requires TextOnly(c) && i < |d| && TurnReads(Standard(lib), c, d, i)
    requires Step(c, d, i, m).More? && TagAgrees(c, Varint(d[i..]).value)
    ensures WalletStep(lib, c, d, i, m) == Step(c, d, i, m)
  {
    hide Varint, SkipType, Body, TakeText, ReadString, SkipAt, Number32, BodyReads;
    var tag, n := Varint(d[i..]).value, Varint(d[i..]).size;
    assert Read32(lib, d, i) == Ok(tag % TWO_32, n);
    LowBits(tag);
    if c.kind(Int32(tag / 8)) == Unknown {
      SkipAgrees(lib, d, i);
    } else {
      DeclaredAgrees(c, tag);
      TextAgrees(lib, d, i + n);
    }
  }

  /** Where the tags part, the chain steps over a field that the wallet stores or stumbles on. */
  lemma StepDiffers<M(!new)>(lib: Library, c: Codec<M>, d: Bytes, i: nat, m: M) returns (m': M)
    requires TextOnly(c) && Visible(c) && i < |d| && TurnReads(Standard(lib), c, d, i)
    requires Step(c, d, i, m).More? && !TagAgrees(c, Varint(d[i..]).value)
    ensures WalletStep(lib, c, d, i, m') != Step(c, d, i, m')
  {
    hide Varint, SkipType, Body, TakeText, ReadString, SkipAt, Number32, BodyReads;
    var tag, n := Varint(d[i..]).value, Varint(d[i..]).size;
    assert Read32(lib, d, i) == Ok(tag % TWO_32, n);
    if c.kind(Int32(tag / 8)) == Delimited {
      DeclaredAgrees(c, tag);
    }
    var text := ReadString(lib, d, i + n);
    m' := m;
    if text.Took? {
      assert Shows(c, tag % TWO_32 / 8, text.payload.bytes);
      m' :| c.put(tag % TWO_32 / 8, Text(text.payload.bytes), m') != Outcome(m', NoError);
    }
  }

  /** An accepted turn does the same to every target on both sides exactly when its tag agrees. */
  lemma TurnsAgreeIff<M(!new)>(lib: Library, c: Codec<M>, d: Bytes, i: nat, m: M)
    requires TextOnly(c) && Visible(c) && i < |d| && TurnReads(Standard(lib), c, d, i)
    requires (forall m' :: Step(c, d, i, m').More?)
    ensures (forall m' :: WalletStep(lib, c, d, i, m') == Step(c, d, i, m')) <==> TagAgrees(c, Varint(d[i..]).value)
  {
    assert Step(c, d, i, m).More? && Varint(d[i..]).Ok?;
    hide Varint, SkipType, Step, WalletStep, TurnReads, TagAgrees;
    if TagAgrees(c, Varint(d[i..]).value) {
      forall m' ensures WalletStep(lib, c, d, i, m') == Step(c, d, i, m') {
        StepAgrees(lib, c, d, i, m');
      }
    } else {
      var m' := StepDiffers(lib, c, d, i, m);
    }
  }

  // ---------------------------------------------------------------- agreement of the loops

  /** Every tag that the chain's loop meets from index `i` on agrees. */
  ghost predicate SameTags<M>(c: Codec<M>, d: Bytes, i: nat, m: M)
    decreases |d| - i
  {
    i < |d| && Step(c, d, i, m).More? ==>
      TagAgrees(c, Varint(d[i..]).value) && SameTags(c, d, Step(c, d, i, m).next, Step(c, d, i, m).msg)
  }

  /** Every turn of the chain's loop does to every target what the wallet's turn does. */
  ghost predicate SameTurns<M(!new)>(lib: Library, c: Codec<M>, d: Bytes, i: nat, m: M)
    decreases |d| - i
  {
    i < |d| && Step(c, d, i, m).More? ==>
      && (forall m' :: WalletStep(lib, c, d, i, m') == Step(c, d, i, m'))
      && SameTurns(lib, c, d, Step(c, d, i, m).next, Step(c, d, i, m).msg)
  }

  /** Storing a string never fails. */
  ghost predicate Storing<M(!new)>(c: Codec<M>) {
    forall n, b, m :: c.put(n, Text(b), m).err == NoError
  }

  lemma MoreForAll<M(!new)>(c: Codec<M>, d: Bytes, i: nat, m: M, m': M)
    requires TextOnly(c) && Storing(c) && i < |d| && Step(c, d, i, m).More?
    ensures Step(c, d, i, m').More?
  {
    hide Varint, TakeText, SkipAt;
  }

  lemma {:induction false} SameTurnsIff<M(!new)>(lib: Library, c: Codec<M>, d: Bytes, i: nat, m: M)
    requires TextOnly(c) && Visible(c) && Storing(c) && RunReads(Standard(lib), c, d, i, m)
    ensures SameTurns(lib, c, d, i, m) <==> SameTags(c, d, i, m)
    decreases |d| - i
  {
    hide Varint, Step, WalletStep, TurnReads, TagAgrees;
    if i < |d| && Step(c, d, i, m).More? {
      forall m' ensures Step(c, d, i, m').More? {
        MoreForAll(c, d, i, m, m');
      }
      TurnsAgreeIff(lib, c, d, i, m);
      SameTurnsIff(lib, c, d, Step(c, d, i, m).next, Step(c, d, i, m).msg);
    }
  }

  lemma MintAndBurnAreText()
    ensures TextOnly(MINT) && Visible(MINT) && Storing(MINT)
    ensures TextOnly(BURN) && Visible(BURN) && Storing(BURN)
  {
    forall n, b | MINT.kind(n) == Delimited
      ensures Shows(MINT, n, b)
    {
      var m := MintValue(b + [0], b + [0], b + [0]);
      assert MINT.put(n, Text(b), m) != Outcome(m, NoError);
    }
    forall n, b | BURN.kind(n) == Delimited
      ensures Shows(BURN, n, b)
    {
      var m := BurnValue(b + [0], b + [0], b + [0]);
      assert BURN.put(n, Text(b), m) != Outcome(m, NoError);
    }
  }

  /** On an input whose tags and lengths the library reads, the wallet's loop and the chain's
      take the same turns exactly when all tags agree. */
  lemma WalletTurnsAsChain(lib: Library, d: Bytes, mint: MintValue, burn: BurnValue)
    ensures RunReads(Standard(lib), MINT, d, 0, mint) ==>
            (SameTurns(lib, MINT, d, 0, mint) <==> SameTags(MINT, d, 0, mint))
    ensures RunReads(Standard(lib), BURN, d, 0, burn) ==>
            (SameTurns(lib, BURN, d, 0, burn) <==> SameTags(BURN, d, 0, burn))
  {
    hide RunReads, SameTurns, SameTags;
    MintAndBurnAreText();
    if RunReads(Standard(lib), MINT, d, 0, mint) {
      SameTurnsIff(lib, MINT, d, 0, mint);
    }
    if RunReads(Standard(lib), BURN, d, 0, burn) {
      SameTurnsIff(lib, BURN, d, 0, burn);
    }
  }

  lemma {:induction false} AgreedRun<M>(lib: Library, c: Codec<M>, d: Bytes, i: nat, m: M)
    requires TextOnly(c) && i <= |d| && DecodeFrom(c, d, i, m).err == NoError
    requires RunReads(Standard(lib), c, d, i, m) && SameTags(c, d, i, m)
    ensures WalletDecodeFrom(lib, c, d, i, |d|, m) == DecodeFrom(c, d, i, m)
    decreases |d| - i
  {
    hide Varint, Step, WalletStep, TurnReads, TagAgrees;
    if i < |d| {
      StepAgrees(lib, c, d, i, m);
      AgreedRun(lib, c, d, Step(c, d, i, m).next, Step(c, d, i, m).msg);
    }
  }

  /** Whatever the chain accepts with agreeing tags, the wallet decodes to the same message,
      if the library reads its tags and lengths; five bytes for each are enough for that. */
  lemma WalletReadsAsChain<M>(lib: Library, c: Codec<M>, d: Bytes, m: M)
    requires TextOnly(c) && Decode(c, d, m).err == NoError && SameTags(c, d, 0, m)
    requires RunReads(Standard(lib), c, d, 0, m) || RunReads(SHORT, c, d, 0, m)
    ensures WalletDecodeFrom(lib, c, d, 0, |d|, m) == Decode(c, d, m)
  {
    hide RunReads, SameTags, Standard;
    if RunReads(SHORT, c, d, 0, m) {
      ShortIsStandard(lib);
      RunImplies(SHORT, Standard(lib), c, d, 0, m);
    }
    AgreedRun(lib, c, d, 0, m);
  }

  const WIDE_TAG: nat := 0x1_0000_000a  // 2^32 + 10

  /** A tag of 33 bits under every library: the wallet sees field 1 where the chain sees field
      2^29 + 1, so they end apart exactly when there is something to store. */
  lemma WideTagsDiverge(lib: Library, s: Bytes)
    requires |s| < TWO_31
    ensures var d := VarintBytes(WIDE_TAG) + VarintBytes(|s|) + s;
            && Decode(MINT, d, NO_MINT) == Outcome(NO_MINT, NoError)
            && WalletDecodeFrom(lib, MINT, d, 0, |d|, NO_MINT) == Outcome(NO_MINT.(authority := s), NoError)
            && (WalletDecodeFrom(lib, MINT, d, 0, |d|, NO_MINT) != Decode(MINT, d, NO_MINT) <==> s != [])
  {
    var t, p := VarintBytes(WIDE_TAG), VarintBytes(|s|) + s;
    var d := VarintBytes(WIDE_TAG) + VarintBytes(|s|) + s;
    assert d == t + p;
    FiveBytes(WIDE_TAG);
    FiveBytes(|s|);
    VarintReadBack(WIDE_TAG, p);
    VarintReadBack(|s|, s);
    assert d[0..] == d && d[|t|..] == p;
    WideTagSkipped(d, |t|, |VarintBytes(|s|)|, s);
    WideTagStored(lib, d, |t|, |VarintBytes(|s|)|, s);
  }

  /** 35 bits take five bytes at most. */
  lemma FiveBytes(v: nat)
    requires v < 0x8_0000_0000
    ensures 1 <= |VarintBytes(v)| <= 5
  {
    Pow128Table();
    SovIsLeast(v, 5);
    SovIsEncodedSize(v);
  }

  lemma WideTagSkipped(d: Bytes, i: nat, n: nat, s: Bytes)
    requires i + n + |s| == |d| < TWO_32 && n > 0 && Varint(d[0..]) == Ok(WIDE_TAG, i)
    requires Varint(d[i..]) == Ok(|s|, n)
    ensures Decode(MINT, d, NO_MINT) == Outcome(NO_MINT, NoError)
  {
    assert d[0..] == d;
    assert FieldEnd(d) == At(|d|);
    assert Int32(WIDE_TAG / 8) == 0x2000_0001;
    assert Step(MINT, d, 0, NO_MINT) == More(|d|, NO_MINT);
    assert DecodeFrom(MINT, d, |d|, NO_MINT) == Outcome(NO_MINT, NoError);
  }

  lemma WideTagStored(lib: Library, d: Bytes, i: nat, n: nat, s: Bytes)
    requires i + n + |s| == |d| < TWO_32 && 0 < n <= 5 && i <= 5 && Varint(d[0..]) == Ok(WIDE_TAG, i)
    requires Varint(d[i..]) == Ok(|s|, n) && d[i + n..] == s
    ensures WalletDecodeFrom(lib, MINT, d, 0, |d|, NO_MINT) == Outcome(NO_MINT.(authority := s), NoError)
  {
    hide Varint;
    assert d[i + n..|d|] == s;
    assert ReadString(lib, d, i) == Took(Text(s), |d|);
    var m := NO_MINT.(authority := s);
    assert WalletStep(lib, MINT, d, 0, NO_MINT) == More(|d|, m);
    assert WalletDecodeFrom(lib, MINT, d, |d|, |d|, m) == Outcome(m, NoError);
  }

  // ---------------------------------------------------------------- wallet and chain together

  lemma ChainReadsWallet(mint: MintValue, burn: BurnValue)
    requires |EncodeMint(mint)| < TWO_32 && |EncodeBurn(burn)| < TWO_32
    ensures Decode(MINT, WalletMint(mint), NO_MINT) == Outcome(mint, NoError)
    ensures Decode(BURN, WalletBurn(burn), NO_BURN) == Outcome(burn, NoError)
  {
    hide Sov, DecodeFrom;
    MintSizeIsLength(mint);
    BurnSizeIsLength(burn);
    WalletWritesAsChain(mint, burn);
    RoundTrips(NO_PARAMS, mint, burn, NO_UPDATE);
  }

  /** A short varint in place is read as itself. */
  lemma ShortInPlace(lib: Library, d: Bytes, i: nat, v: nat)
    requires v < TWO_32 && Holds(d, i, VarintBytes(v))
    ensures i + |VarintBytes(v)| <= |d| && Read32(lib, d, i) == Ok(v, |VarintBytes(v)|)
  {
    VarintReadBack(v, []);
    assert VarintBytes(v) + [] == VarintBytes(v);
    FiveBytes(v);
    hide Varint, VarintBytes;
    VarintReads(d, i, VarintBytes(v));
  }

  lemma StringInPlace(lib: Library, d: Bytes, i: nat, s: Bytes)
    requires |s| < TWO_32 && Holds(d, i, VarintBytes(|s|) + s)
    ensures i <= |d| && ReadString(lib, d, i) == Took(Text(s), i + |VarintBytes(|s|)| + |s|)
  {
    hide VarintBytes, Read32;
    HoldsBoth(d, i, VarintBytes(|s|), s);
    ShortInPlace(lib, d, i, |s|);
  }

  /** A turn over a string field in place. */
  lemma FieldInPlace<M>(lib: Library, c: Codec<M>, d: Bytes, i: nat, tag: Byte, s: Bytes, m: M)
    requires 8 <= tag < 128 && c.kind(tag / 8) == Delimited && |s| < TWO_32 && Holds(d, i, Delimit(tag, s))
    ensures i <= |d| && WalletStep(lib, c, d, i, m) == Stored(Took(Text(s), i + |Delimit(tag, s)|), tag / 8, c, m)
  {
    assert VarintBytes(tag) == [tag];
    assert Delimit(tag, s) == [tag] + (VarintBytes(|s|) + s);
    HoldsBoth(d, i, [tag], VarintBytes(|s|) + s);
    hide VarintBytes, Read32, ReadString, Holds;
    ShortInPlace(lib, d, i, tag);
    StringInPlace(lib, d, i + 1, s);
  }

  /** The loop over a string field in place, if there is one. */
  lemma TextInPlace<M>(lib: Library, c: Codec<M>, d: Bytes, i: nat, end: nat, tag: Byte, s: Bytes, m: M, m': M)
    requires 8 <= tag < 128 && c.kind(tag / 8) == Delimited && |s| < TWO_32
    requires Holds(d, i, TextField(tag, s)) && i + |TextField(tag, s)| <= end
    requires if s == [] then m' == m else c.put(tag / 8, Text(s), m) == Outcome(m', NoError)
    ensures var next := i + |TextField(tag, s)|;
            && next <= |d|
            && WalletDecodeFrom(lib, c, d, i, end, m) == WalletDecodeFrom(lib, c, d, next, end, m')
            && WalletStop(lib, c, d, i, end, m) == WalletStop(lib, c, d, next, end, m')
  {
    if s != [] {
      FieldInPlace(lib, c, d, i, tag, s, m);
    }
  }

  lemma LoopEnds<M>(lib: Library, c: Codec<M>, d: Bytes, i: nat, m: M)
    requires i <= |d|
    ensures WalletDecodeFrom(lib, c, d, i, i, m) == Outcome(m, NoError) && WalletStop(lib, c, d, i, i, m) == i
  {
  }

  lemma HoldsThree(d: Bytes, i: nat, a: Bytes, b: Bytes, c: Bytes)
    requires Holds(d, i, a + b + c)
    ensures Holds(d, i, a) && Holds(d, i + |a|, b) && Holds(d, i + |a| + |b|, c)
  {
    HoldsBoth(d, i, a + b, c);
    HoldsBoth(d, i, a, b);
  }

  /** Wherever an encoding stands and the loop is told to end behind it, the wallet reads the
      message and stops there, whatever the library does with long varints. */
  lemma MintInPlace(lib: Library, d: Bytes, i: nat, v: MintValue)
    requires |EncodeMint(v)| < TWO_32 && Holds(d, i, EncodeMint(v))
    ensures i <= |d|
    ensures WalletDecodeFrom(lib, MINT, d, i, i + |EncodeMint(v)|, NO_MINT) == Outcome(v, NoError)
    ensures WalletStop(lib, MINT, d, i, i + |EncodeMint(v)|, NO_MINT) == i + |EncodeMint(v)|
  {
    hide *;
    var end := i + |EncodeMint(v)|;
    var j, k := MintPlaced(d, i, v);
    MintInThreeTurns(lib, d, i, j, k, end, v);
  }

  lemma MintInThreeTurns(lib: Library, d: Bytes, i: nat, j: nat, k: nat, end: nat, v: MintValue)
    requires Holds(d, i, TextField(TAG_1, v.authority)) && j == i + |TextField(TAG_1, v.authority)|
    requires Holds(d, j, TextField(TAG_2, v.toAddress)) && k == j + |TextField(TAG_2, v.toAddress)|
    requires Holds(d, k, TextField(TAG_3, v.amount)) && end == k + |TextField(TAG_3, v.amount)|
    requires |v.authority| < TWO_32 && |v.toAddress| < TWO_32 && |v.amount| < TWO_32
    ensures end <= |d|
    ensures WalletDecodeFrom(lib, MINT, d, i, end, NO_MINT) == Outcome(v, NoError)
    ensures WalletStop(lib, MINT, d, i, end, NO_MINT) == end
  {
    hide TextField, WalletDecodeFrom, WalletStop, Holds;
    var m1 := MintValue(v.authority, [], []);
    var m2 := m1.(toAddress := v.toAddress);
    TextInPlace(lib, MINT, d, i, end, TAG_1, v.authority, NO_MINT, m1);
    TextInPlace(lib, MINT, d, j, end, TAG_2, v.toAddress, m1, m2);
    TextInPlace(lib, MINT, d, k, end, TAG_3, v.amount, m2, v);
    LoopEnds(lib, MINT, d, end, v);
  }

  lemma MintPlaced(d: Bytes, i: nat, v: MintValue) returns (j: nat, k: nat)
    requires |EncodeMint(v)| < TWO_32 && Holds(d, i, EncodeMint(v))
    ensures i + |EncodeMint(v)| <= |d|
    ensures Holds(d, i, TextField(TAG_1, v.authority)) && j == i + |TextField(TAG_1, v.authority)|
    ensures Holds(d, j, TextField(TAG_2, v.toAddress)) && k == j + |TextField(TAG_2, v.toAddress)|
    ensures Holds(d, k, TextField(TAG_3, v.amount)) && k + |TextField(TAG_3, v.amount)| == i + |EncodeMint(v)|
    ensures |v.authority| < TWO_32 && |v.toAddress| < TWO_32 && |v.amount| < TWO_32
  {
    TextIsShorter(TAG_1, v.authority);
    TextIsShorter(TAG_2, v.toAddress);
    TextIsShorter(TAG_3, v.amount);
    hide TextField;
    HoldsThree(d, i, TextField(TAG_1, v.authority), TextField(TAG_2, v.toAddress), TextField(TAG_3, v.amount));
    j := i + |TextField(TAG_1, v.authority)|;
    k := j + |TextField(TAG_2, v.toAddress)|;
  }

  lemma BurnInPlace(lib: Library, d: Bytes, i: nat, v: BurnValue)
    requires |EncodeBurn(v)| < TWO_32 && Holds(d, i, EncodeBurn(v))
    ensures i <= |d|
    ensures WalletDecodeFrom(lib, BURN, d, i, i + |EncodeBurn(v)|, NO_BURN) == Outcome(v, NoError)
    ensures WalletStop(lib, BURN, d, i, i + |EncodeBurn(v)|, NO_BURN) == i + |EncodeBurn(v)|
  {
    hide *;
    var end := i + |EncodeBurn(v)|;
    var j, k := BurnPlaced(d, i, v);
    BurnInThreeTurns(lib, d, i, j, k, end, v);
  }

  lemma BurnInThreeTurns(lib: Library, d: Bytes, i: nat, j: nat, k: nat, end: nat, v: BurnValue)
    requires Holds(d, i, TextField(TAG_1, v.authority)) && j == i + |TextField(TAG_1, v.authority)|
    requires Holds(d, j, TextField(TAG_2, v.fromAddress)) && k == j + |TextField(TAG_2, v.fromAddress)|
    requires Holds(d, k, TextField(TAG_3, v.amount)) && end == k + |TextField(TAG_3, v.amount)|
    requires |v.authority| < TWO_32 && |v.fromAddress| < TWO_32 && |v.amount| < TWO_32
    ensures end <= |d|
    ensures WalletDecodeFrom(lib, BURN, d, i, end, NO_BURN) == Outcome(v, NoError)
    ensures WalletStop(lib, BURN, d, i, end, NO_BURN) == end
  {
    hide TextField, WalletDecodeFrom, WalletStop, Holds;
    var m1 := BurnValue(v.authority, [], []);
    var m2 := m1.(fromAddress := v.fromAddress);
    TextInPlace(lib, BURN, d, i, end, TAG_1, v.authority, NO_BURN, m1);
    TextInPlace(lib, BURN, d, j, end, TAG_2, v.fromAddress, m1, m2);
    TextInPlace(lib, BURN, d, k, end, TAG_3, v.amount, m2, v);
    LoopEnds(lib, BURN, d, end, v);
  }

  lemma BurnPlaced(d: Bytes, i: nat, v: BurnValue) returns (j: nat, k: nat)
    requires |EncodeBurn(v)| < TWO_32 && Holds(d, i, EncodeBurn(v))
    ensures i + |EncodeBurn(v)| <= |d|
    ensures Holds(d, i, TextField(TAG_1, v.authority)) && j == i + |TextField(TAG_1, v.authority)|
    ensures Holds(d, j, TextField(TAG_2, v.fromAddress)) && k == j + |TextField(TAG_2, v.fromAddress)|
    ensures Holds(d, k, TextField(TAG_3, v.amount)) && k + |TextField(TAG_3, v.amount)| == i + |EncodeBurn(v)|
    ensures |v.authority| < TWO_32 && |v.fromAddress| < TWO_32 && |v.amount| < TWO_32
  {
    TextIsShorter(TAG_1, v.authority);
    TextIsShorter(TAG_2, v.fromAddress);
    TextIsShorter(TAG_3, v.amount);
    hide TextField;
    HoldsThree(d, i, TextField(TAG_1, v.authority), TextField(TAG_2, v.fromAddress), TextField(TAG_3, v.amount));
    j := i + |TextField(TAG_1, v.authority)|;
    k := j + |TextField(TAG_2, v.fromAddress)|;
  }

  lemma TextIsShorter(tag: Byte, s: Bytes)
    ensures |s| <= |TextField(tag, s)|
  {
  }

  /** Each side decodes what the other encoded, whatever the library does with long varints. */
  lemma WalletAndChainExchange(lib: Library, mint: MintValue, burn: BurnValue)
    requires |EncodeMint(mint)| < TWO_32 && |EncodeBurn(burn)| < TWO_32
    ensures Decode(MINT, WalletMint(mint), NO_MINT) == Outcome(mint, NoError)
    ensures Decode(BURN, WalletBurn(burn), NO_BURN) == Outcome(burn, NoError)
    ensures WalletDecodeFrom(lib, MINT, EncodeMint(mint), 0, |EncodeMint(mint)|, NO_MINT) == Outcome(mint, NoError)
    ensures WalletDecodeFrom(lib, BURN, EncodeBurn(burn), 0, |EncodeBurn(burn)|, NO_BURN) == Outcome(burn, NoError)
  {
    hide EncodeMint, EncodeBurn, WalletMint, WalletBurn, WalletDecodeFrom, DecodeFrom;
    ChainReadsWallet(mint, burn);
    MintInPlace(lib, EncodeMint(mint), 0, mint);
    BurnInPlace(lib, EncodeBurn(burn), 0, burn);
  }

  // ---------------------------------------------------------------- the decode loops

  /** The wallet reads a string of a declared field whatever the wire type of its tag, and skips a
      field number zero; the chain refuses both. */
  lemma WalletIsLenient(lib: Library, d: Bytes, i: nat, m: MintValue)
    requires i < |d| && Varint(d[i..]).Ok? && Varint(d[i..]).size <= 5
    ensures var tag, j := Varint(d[i..]).value % TWO_32, i + Varint(d[i..]).size;
            && (1 <= tag / 8 <= 3 ==> WalletStep(lib, MINT, d, i, m) == Stored(ReadString(lib, d, j), tag / 8, MINT, m))
            && (tag / 8 == 0 && tag % 8 == 0 && Varint(d[j..]).Ok? ==>
                  WalletStep(lib, MINT, d, i, m) == More(j + Varint(d[j..]).size, m))
  {
  }

  /** What the reader refuses: numbers and skipped varints cut short by the end of the input, an end
      tag outside a group, and the two wire types that do not exist. */
  lemma WalletRefuses(lib: Library, d: Bytes, i: nat)
    requires i <= |d|
    ensures Varint(d[i..]).Fail? && |d| - i < 5 ==> Number32(lib, d[i..]) == Fail(UnexpectedEOF)
    ensures Varint(d[i..]).Fail? && |d| - i < 10 ==> SkipType(lib, d, 0, i) == Bad(UnexpectedEOF)
    ensures forall t: nat :: t == 4 || t >= 6 ==> SkipType(lib, d, t, i) == Bad(IllegalWireType(t))
  {
    VarintErrors(d[i..]);
  }

  /** `decode`: without a length the reader is read to its end, with one that many bytes from where
      it stands. An encoding that ends there is read as its message, and the reader stops behind it. */
  method ReadMint(reader: Reader, length: Decimal.Option<nat>) returns (message: MintValue, err: Error)
    requires reader.pos <= |reader.buf|
    modifies reader
    ensures old(reader.pos) <= reader.pos <= |reader.buf|
    ensures length.None? ==>
              Outcome(message, err)
              == WalletDecodeFrom(reader.lib, MINT, reader.buf, old(reader.pos), |reader.buf|, NO_MINT)
    ensures length.Some? ==>
              Outcome(message, err)
              == WalletDecodeFrom(reader.lib, MINT, reader.buf, old(reader.pos), old(reader.pos) + length.value,
                                  NO_MINT)
    ensures err == NoError ==> reader.pos >= if length.None? then |reader.buf| else old(reader.pos) + length.value
    ensures forall v :: |EncodeMint(v)| < TWO_32 && Holds(reader.buf, old(reader.pos), EncodeMint(v))
              && (if length.None? then old(reader.pos) + |EncodeMint(v)| == |reader.buf|
                  else |EncodeMint(v)| == length.value)
              ==> message == v && err == NoError && reader.pos == old(reader.pos) + |EncodeMint(v)|
  {
    hide Varint, SkipType, Read32, ReadString, Holds, EncodeMint, VarintBytes;
    var lib, buf := reader.lib, reader.buf;
    var end := if length.None? then |buf| else reader.pos + length.value;
    ghost var start := reader.pos;
    MintEncodingsAreRead(lib, buf, start, end);
    message := NO_MINT;
    while reader.pos < end
      invariant start <= reader.pos <= |buf|
      invariant WalletDecodeFrom(lib, MINT, buf, start, end, NO_MINT)
                == WalletDecodeFrom(lib, MINT, buf, reader.pos, end, message)
      invariant WalletStop(lib, MINT, buf, start, end, NO_MINT)
                == WalletStop(lib, MINT, buf, reader.pos, end, message)
      decreases |buf| - reader.pos
    {
      ghost var at, m := reader.pos, message;
      var tag;
      tag, err := reader.Uint32();
      if err != NoError { return; }
      assert Read32(lib, buf, at) == Ok(tag, reader.pos - at);
      if 1 <= tag / 8 <= 3 {
        var s;
        s, err := reader.Text();
        if err != NoError { return; }
        assert WalletStep(lib, MINT, buf, at, m) == Stored(Took(Text(s), reader.pos), tag / 8, MINT, m);
        match tag / 8
        case 1 => message := message.(authority := s);
        case 2 => message := message.(toAddress := s);
        case 3 => message := message.(amount := s);
      } else {
        err := reader.Skip(tag % 8);
        if err != NoError { return; }
      }
      assert WalletStep(lib, MINT, buf, at, m) == More(reader.pos, message);
    }
    err := NoError;
  }

  lemma MintEncodingsAreRead(lib: Library, buf: Bytes, start: nat, end: nat)
    requires start <= |buf|
    ensures forall v :: |EncodeMint(v)| < TWO_32 && Holds(buf, start, EncodeMint(v)) && start + |EncodeMint(v)| == end
              ==> WalletDecodeFrom(lib, MINT, buf, start, end, NO_MINT) == Outcome(v, NoError)
                  && WalletStop(lib, MINT, buf, start, end, NO_MINT) == end
  {
    hide EncodeMint, Holds, WalletDecodeFrom, WalletStop;
    forall v | |EncodeMint(v)| < TWO_32 && Holds(buf, start, EncodeMint(v)) && start + |EncodeMint(v)| == end
      ensures WalletDecodeFrom(lib, MINT, buf, start, end, NO_MINT) == Outcome(v, NoError)
              && WalletStop(lib, MINT, buf, start, end, NO_MINT) == end
    {
      MintInPlace(lib, buf, start, v);
    }
  }

  /** `decode`: without a length the reader is read to its end, with one that many bytes from where
      it stands. An encoding that ends there is read as its message, and the reader stops behind it. */
  method ReadBurn(reader: Reader, length: Decimal.Option<nat>) returns (message: BurnValue, err: Error)
    requires reader.pos <= |reader.buf|
    modifies reader
    ensures old(reader.pos) <= reader.pos <= |reader.buf|
    ensures length.None? ==>
              Outcome(message, err)
              == WalletDecodeFrom(reader.lib, BURN, reader.buf, old(reader.pos), |reader.buf|, NO_BURN)
    ensures length.Some? ==>
              Outcome(message, err)
              == WalletDecodeFrom(reader.lib, BURN, reader.buf, old(reader.pos), old(reader.pos) + length.value,
                                  NO_BURN)
    ensures err == NoError ==> reader.pos >= if length.None? then |reader.buf| else old(reader.pos) + length.value
    ensures forall v :: |EncodeBurn(v)| < TWO_32 && Holds(reader.buf, old(reader.pos), EncodeBurn(v))
              && (if length.None? then old(reader.pos) + |EncodeBurn(v)| == |reader.buf|
                  else |EncodeBurn(v)| == length.value)
              ==> message == v && err == NoError && reader.pos == old(reader.pos) + |EncodeBurn(v)|
  {
    hide Varint, SkipType, Read32, ReadString, Holds, EncodeBurn, VarintBytes;
    var lib, buf := reader.lib, reader.buf;
    var end := if length.None? then |buf| else reader.pos + length.value;
    ghost var start := reader.pos;
    BurnEncodingsAreRead(lib, buf, start, end);
    message := NO_BURN;
    while reader.pos < end
      invariant start <= reader.pos <= |buf|
      invariant WalletDecodeFrom(lib, BURN, buf, start, end, NO_BURN)
                == WalletDecodeFrom(lib, BURN, buf, reader.pos, end, message)
      invariant WalletStop(lib, BURN, buf, start, end, NO_BURN)
                == WalletStop(lib, BURN, buf, reader.pos, end, message)
      decreases |buf| - reader.pos
    {
      ghost var at, m := reader.pos, message;
      var tag;
      tag, err := reader.Uint32();
      if err != NoError { return; }
      assert Read32(lib, buf, at) == Ok(tag, reader.pos - at);
      if 1 <= tag / 8 <= 3 {
        var s;
        s, err := reader.Text();
        if err != NoError { return; }
        assert WalletStep(lib, BURN, buf, at, m) == Stored(Took(Text(s), reader.pos), tag / 8, BURN, m);
        match tag / 8
        case 1 => message := message.(authority := s);
        case 2 => message := message.(fromAddress := s);
        case 3 => message := message.(amount := s);
      } else {
        err := reader.Skip(tag % 8);
        if err != NoError { return; }
      }
      assert WalletStep(lib, BURN, buf, at, m) == More(reader.pos, message);
    }
    err := NoError;
  }

  lemma BurnEncodingsAreRead(lib: Library, buf: Bytes, start: nat, end: nat)
    requires start <= |buf|
    ensures forall v :: |EncodeBurn(v)| < TWO_32 && Holds(buf, start, EncodeBurn(v)) && start + |EncodeBurn(v)| == end
              ==> WalletDecodeFrom(lib, BURN, buf, start, end, NO_BURN) == Outcome(v, NoError)
                  && WalletStop(lib, BURN, buf, start, end, NO_BURN) == end
  {
    hide EncodeBurn, Holds, WalletDecodeFrom, WalletStop;
    forall v | |EncodeBurn(v)| < TWO_32 && Holds(buf, start, EncodeBurn(v)) && start + |EncodeBurn(v)| == end
      ensures WalletDecodeFrom(lib, BURN, buf, start, end, NO_BURN) == Outcome(v, NoError)
              && WalletStop(lib, BURN, buf, start, end, NO_BURN) == end
    {
      BurnInPlace(lib, buf, start, v);
    }
  }
}
