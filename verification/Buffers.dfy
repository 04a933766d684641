/** The writers and readers the generated message code is made of: bytes go into a buffer
    from its end towards its start, behind a falling index. */
module Buffers {
  import Bits
  import opened Wire
  import opened Grammar
  import opened Decoding
  import opened Messages

  /** The slice of a buffer from `i` to `end` has become `s`; nothing else has changed. */
  ghost predicate Wrote(before: Bytes, after: Bytes, i: nat, end: nat, s: Bytes) {
    i + |s| == end <= |before| && after == before[..i] + s + before[end..]
  }

  /** A write that ends where the last one began joins it. */
  lemma WroteThen(a: Bytes, b: Bytes, c: Bytes, i: nat, j: nat, end: nat, s: Bytes, t: Bytes)
    requires Wrote(a, b, j, end, t) && Wrote(b, c, i, j, s)
    ensures Wrote(a, c, i, end, s + t)
  {
    assert b[..i] == a[..i];
    assert b[j..] == t + a[end..];
    assert c == a[..i] + s + (t + a[end..]) == a[..i] + (s + t) + a[end..];
  }

  /** One more byte behind a write. */
  lemma WroteNext(a: Bytes, b: Bytes, c: Bytes, i: nat, at: nat, s: Bytes)
    requires Wrote(a, b, i, at, s) && at < |b| == |c| && c == b[at := c[at]]
    ensures Wrote(a, c, i, at + 1, s + [c[at]])
  {
  }

  /** Four fields written from the last to the first read in order. */
  lemma WroteFour(b: Bytes, b4: Bytes, b3: Bytes, b2: Bytes, b1: Bytes, i1: nat, i2: nat, i3: nat, i4: nat, end: nat,
                  f1: Bytes, f2: Bytes, f3: Bytes, f4: Bytes)
    requires Wrote(b, b4, i4, end, f4) && Wrote(b4, b3, i3, i4, f3) && Wrote(b3, b2, i2, i3, f2) &&
             Wrote(b2, b1, i1, i2, f1)
    ensures Wrote(b, b1, i1, end, f1 + f2 + f3 + f4)
  {
    WroteThen(b, b4, b3, i3, i4, end, f3, f4);
    WroteThen(b, b3, b2, i2, i3, end, f2, f3 + f4);
    WroteThen(b, b2, b1, i1, i2, end, f1, f2 + (f3 + f4));
    assert f1 + f2 + f3 + f4 == f1 + (f2 + (f3 + f4));
  }

  lemma WroteNothing(b: Bytes, i: nat)
    requires i <= |b|
    ensures Wrote(b, b, i, i, [])
  {
  }

  lemma VarintGoesOn(v: nat, done: Bytes)
    requires v >= 128
    ensures |VarintBytes(v)| == 1 + |VarintBytes(v / 128)|
    ensures done + VarintBytes(v) == done + [v % 128 + 128] + VarintBytes(v / 128)
  {
    Joined(done, v % 128 + 128, VarintBytes(v / 128));
  }

  lemma Joined(s: Bytes, b: Byte, t: Bytes)
    ensures s + ([b] + t) == s + [b] + t
  {
  }

  lemma VarintEnds(v: nat)
    requires v < 128
    ensures VarintBytes(v) == [v]
  {
  }

  /** Writes a varint so that it ends at `offset`, moving forward from its start. */
  method EncodeVarint(dAtA: array<Byte>, offset: nat, v: bv64) returns (start: nat)
    requires Sov(Bits.Value(v)) <= offset <= dAtA.Length
    modifies dAtA
    ensures start == offset - Sov(Bits.Value(v))
    ensures Wrote(old(dAtA[..]), dAtA[..], start, offset, VarintBytes(Bits.Value(v)))
  {
    hide Bits.Value, Bits.Emit, Bits.Shorten, Bits.LastByte, Bits.GoesOn, Wrote, Sov, VarintBytes;
    SovIsEncodedSize(Bits.Value(v));
    var size := SovTx(v);
    start := offset - size;
    var at, x := start, v;
    ghost var done: Bytes := [];
    WroteNothing(dAtA[..], at);
    while Bits.GoesOn(x)
      invariant at + |VarintBytes(Bits.Value(x))| == offset
      invariant done + VarintBytes(Bits.Value(x)) == VarintBytes(Bits.Value(v))
      invariant Wrote(old(dAtA[..]), dAtA[..], start, at, done)
      decreases Bits.Value(x)
    {
      ghost var before := dAtA[..];
      VarintGoesOn(Bits.Value(x), done);
      dAtA[at] := Bits.Emit(x);
      WroteNext(old(dAtA[..]), before, dAtA[..], start, at, done);
      done := done + [dAtA[at]];
      x := Bits.Shorten(x);
      at := at + 1;
    }
    ghost var before := dAtA[..];
    VarintEnds(Bits.Value(x));
    dAtA[at] := Bits.LastByte(x);
    WroteNext(old(dAtA[..]), before, dAtA[..], start, at, done);
  }

  /** `copy(dAtA[i:], s)`. */
  method Copy(dAtA: array<Byte>, i: nat, s: Bytes)
    requires i + |s| <= dAtA.Length
    modifies dAtA
    ensures Wrote(old(dAtA[..]), dAtA[..], i, i + |s|, s)
  {
    forall k | 0 <= k < |s| {
      dAtA[i + k] := s[k];
    }
  }

  /** The length and the tag in front of the `size` bytes of payload that start at `i`. */
  method PrependTag(dAtA: array<Byte>, i: nat, size: nat, tag: Byte) returns (j: nat)
    requires 1 + Sov(size) <= i <= dAtA.Length && size < TWO_64
    modifies dAtA
    ensures j == i - 1 - Sov(size)
    ensures Wrote(old(dAtA[..]), dAtA[..], j, i, [tag] + VarintBytes(size))
  {
    hide Bits.Value, Bits.Word;
    j := EncodeVarint(dAtA, i, Bits.Word(size));
    ghost var written := dAtA[..];
    j := j - 1;
    dAtA[j] := tag;
    assert Wrote(written, dAtA[..], j, j + 1, [tag]);
    WroteThen(old(dAtA[..]), written, dAtA[..], j, j + 1, i, [tag], VarintBytes(size));
  }

  /** The block that writes a string field ending at `end`, if the string is not empty. */
  method PrependText(dAtA: array<Byte>, end: nat, tag: Byte, s: Bytes) returns (j: nat)
    requires TextSize(s) <= end <= dAtA.Length && |s| < TWO_64
    modifies dAtA
    ensures j == end - TextSize(s)
    ensures Wrote(old(dAtA[..]), dAtA[..], j, end, TextField(tag, s))
  {
    j := end;
    if |s| > 0 {
      var i := j - |s|;
      Copy(dAtA, i, s);
      ghost var copied := dAtA[..];
      j := PrependTag(dAtA, i, |s|, tag);
      TextSizeIsLength(tag, s);
      WroteThen(old(dAtA[..]), copied, dAtA[..], j, i, end, [tag] + VarintBytes(|s|), s);
    }
  }

  /** The block that writes a bool field ending at `end`, if it is true. */
  method PrependBool(dAtA: array<Byte>, end: nat, tag: Byte, v: bool) returns (j: nat)
    requires (if v then 2 else 0) <= end <= dAtA.Length
    modifies dAtA
    ensures j == end - if v then 2 else 0
    ensures Wrote(old(dAtA[..]), dAtA[..], j, end, BoolField(tag, v))
  {
    j := end;
    if v {
      j := j - 1;
      dAtA[j] := 1;
      j := j - 1;
      dAtA[j] := tag;
    }
  }

  /** The block that reads a length and the bytes after it. */
  method ReadText(d: Bytes, start: nat) returns (b: Bytes, next: nat, err: Error)
    requires start <= |d| < TWO_63
    ensures TakeText(d, start).Took? ==> err == NoError && TakeText(d, start) == Took(Text(b), next)
    ensures TakeText(d, start).NotTaken? ==> err == TakeText(d, start).error
    ensures |b| <= |d|
  {
    hide Bits.Value;
    b, next := [], start;
    var word, index;
    word, index, err := ReadVarint(d, start);
    if err != NoError {
      return;
    }
    var length := Wrap(Bits.Value(word));
    if length < 0 {
      return b, next, InvalidLength;
    }
    var post := Wrap(index + length);
    if post < 0 {
      return b, next, InvalidLength;
    }
    if post > |d| {
      return b, next, UnexpectedEOF;
    }
    return d[index..post], post, NoError;
  }

  /** The default branch: back to the tag, over one field, with its three checks. */
  method SkipUnknown(d: Bytes, start: nat) returns (next: nat, err: Error)
    requires start <= |d| < TWO_63
    ensures SkipAt(d, start).At? ==> err == NoError && next == SkipAt(d, start).pos
    ensures SkipAt(d, start).Bad? ==> err == SkipAt(d, start).error
  {
    var skippy;
    skippy, err := SkipField(d[start..]);
    if err != NoError {
      return start, err;
    }
    if start + skippy >= TWO_63 {
      return start, InvalidLength;
    }
    if start + skippy > |d| {
      return start, UnexpectedEOF;
    }
    return start + skippy, NoError;
  }
}
