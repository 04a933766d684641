/** The generated message types of the chain: objects whose `Unmarshal` stores fields into
    the receiver as it meets them and whose writers fill a caller's buffer. */
module ChainMessages {
  import Bits
  import opened Wire
  import opened Decoding
  import opened Messages
  import opened Buffers

  class MsgMint {
    var authority: Bytes
    var toAddress: Bytes
    var amount: Bytes

    constructor ()
      ensures Value() == NO_MINT
    {
      authority, toAddress, amount := [], [], [];
    }

    function Value(): MintValue
      reads this
    {
      MintValue(authority, toAddress, amount)
    }

    method Size() returns (n: nat)
      ensures n == |EncodeMint(Value())|
    {
      n := 0;
      if |authority| > 0 { n := n + 1 + |authority| + Sov(|authority|); }
      if |toAddress| > 0 { n := n + 1 + |toAddress| + Sov(|toAddress|); }
      if |amount| > 0 { n := n + 1 + |amount| + Sov(|amount|); }
      MintSizeIsLength(Value());
    }

    method MarshalToSizedBuffer(dAtA: array<Byte>, end: nat) returns (n: nat)
      requires MintSize(Value()) <= end <= dAtA.Length && end < TWO_63
      modifies dAtA
      ensures n == MintSize(Value())
      ensures Wrote(old(dAtA[..]), dAtA[..], end - n, end, EncodeMint(Value()))
    {
      ghost var before := dAtA[..];
      var i := PrependText(dAtA, end, TAG_3, amount);
      ghost var b3 := dAtA[..];
      var j := PrependText(dAtA, i, TAG_2, toAddress);
      ghost var b2 := dAtA[..];
      WroteThen(before, b3, b2, j, i, end, TextField(TAG_2, toAddress), TextField(TAG_3, amount));
      var k := PrependText(dAtA, j, TAG_1, authority);
      WroteThen(before, b2, dAtA[..], k, j, end, TextField(TAG_1, authority),
          TextField(TAG_2, toAddress) + TextField(TAG_3, amount));
      assert EncodeMint(Value()) == TextField(TAG_1, authority)
          + (TextField(TAG_2, toAddress) + TextField(TAG_3, amount));
      return end - k;
    }

    method Marshal() returns (dAtA: array<Byte>)
      requires |EncodeMint(Value())| < TWO_63
      ensures fresh(dAtA) && dAtA[..] == EncodeMint(Value())
    {
      hide MintSize, EncodeMint;
      var size := Size();
      dAtA := new Byte[size](i => 0);
      MintSizeIsLength(Value());
      var n := MarshalToSizedBuffer(dAtA, size);
    }

    method Unmarshal(d: Bytes) returns (err: Error)
      requires |d| < TWO_63
      modifies this
      ensures Outcome(Value(), err) == Decode(MINT, d, old(Value()))
    {
      hide Bits.Value, Bits.TagNumber, Bits.TagType, Bits.IsSet, DecodeFrom, Varint, SkipAt, TakeText, TakeNumber;
      var index := 0;
      while index < |d|
        invariant 0 <= index <= |d|
        invariant Decode(MINT, d, old(Value())) == DecodeFrom(MINT, d, index, Value())
        decreases |d| - index
      {
        ghost var m := Value();
        LoopTurn(MINT, d, index, m);
        var preIndex := index;
        var wire;
        wire, index, err := ReadVarint(d, index);
        if err != NoError {
          return;
        }
        var fieldNum, wireType := Int32(Bits.TagNumber(wire)), Bits.TagType(wire);
        if wireType == 4 {
          return EndGroupForNonGroup;
        }
        if fieldNum <= 0 {
          return IllegalTag(fieldNum);
        }
        if 1 <= fieldNum <= 3 {
          if wireType != 2 {
            return WrongWireType(wireType, fieldNum);
          }
          var b;
          b, index, err := ReadText(d, index);
          if err != NoError {
            return;
          }
          match fieldNum
          case 1 => authority := b;
          case 2 => toAddress := b;
          case 3 => amount := b;
        } else {
          index, err := SkipUnknown(d, preIndex);
          if err != NoError {
            return;
          }
        }
        assert Step(MINT, d, preIndex, m) == More(index, Value());
      }
      LoopTurn(MINT, d, index, Value());
      // the generated test for an index past the end comes here: the invariant rules it out
      return NoError;
    }
  }

  class MsgBurn {
    var authority: Bytes
    var fromAddress: Bytes
    var amount: Bytes

    constructor ()
      ensures Value() == NO_BURN
    {
      authority, fromAddress, amount := [], [], [];
    }

    function Value(): BurnValue
      reads this
    {
      BurnValue(authority, fromAddress, amount)
    }

    method Size() returns (n: nat)
      ensures n == |EncodeBurn(Value())|
    {
      n := 0;
      if |authority| > 0 { n := n + 1 + |authority| + Sov(|authority|); }
      if |fromAddress| > 0 { n := n + 1 + |fromAddress| + Sov(|fromAddress|); }
      if |amount| > 0 { n := n + 1 + |amount| + Sov(|amount|); }
      BurnSizeIsLength(Value());
    }

    method MarshalToSizedBuffer(dAtA: array<Byte>, end: nat) returns (n: nat)
      requires BurnSize(Value()) <= end <= dAtA.Length && end < TWO_63
      modifies dAtA
      ensures n == BurnSize(Value())
      ensures Wrote(old(dAtA[..]), dAtA[..], end - n, end, EncodeBurn(Value()))
    {
      ghost var before := dAtA[..];
      var i := PrependText(dAtA, end, TAG_3, amount);
      ghost var b3 := dAtA[..];
      var j := PrependText(dAtA, i, TAG_2, fromAddress);
      ghost var b2 := dAtA[..];
      WroteThen(before, b3, b2, j, i, end, TextField(TAG_2, fromAddress), TextField(TAG_3, amount));
      var k := PrependText(dAtA, j, TAG_1, authority);
      WroteThen(before, b2, dAtA[..], k, j, end, TextField(TAG_1, authority),
          TextField(TAG_2, fromAddress) + TextField(TAG_3, amount));
      assert EncodeBurn(Value()) == TextField(TAG_1, authority)
          + (TextField(TAG_2, fromAddress) + TextField(TAG_3, amount));
      return end - k;
    }

    method Marshal() returns (dAtA: array<Byte>)
      requires |EncodeBurn(Value())| < TWO_63
      ensures fresh(dAtA) && dAtA[..] == EncodeBurn(Value())
    {
      hide BurnSize, EncodeBurn;
      var size := Size();
      dAtA := new Byte[size](i => 0);
      BurnSizeIsLength(Value());
      var n := MarshalToSizedBuffer(dAtA, size);
    }

    method Unmarshal(d: Bytes) returns (err: Error)
      requires |d| < TWO_63
      modifies this
      ensures Outcome(Value(), err) == Decode(BURN, d, old(Value()))
    {
      hide Bits.Value, Bits.TagNumber, Bits.TagType, Bits.IsSet, DecodeFrom, Varint, SkipAt, TakeText, TakeNumber;
      var index := 0;
      while index < |d|
        invariant 0 <= index <= |d|
        invariant Decode(BURN, d, old(Value())) == DecodeFrom(BURN, d, index, Value())
        decreases |d| - index
      {
        ghost var m := Value();
        LoopTurn(BURN, d, index, m);
        var preIndex := index;
        var wire;
        wire, index, err := ReadVarint(d, index);
        if err != NoError {
          return;
        }
        var fieldNum, wireType := Int32(Bits.TagNumber(wire)), Bits.TagType(wire);
        if wireType == 4 {
          return EndGroupForNonGroup;
        }
        if fieldNum <= 0 {
          return IllegalTag(fieldNum);
        }
        if 1 <= fieldNum <= 3 {
          if wireType != 2 {
            return WrongWireType(wireType, fieldNum);
          }
          var b;
          b, index, err := ReadText(d, index);
          if err != NoError {
            return;
          }
          match fieldNum
          case 1 => authority := b;
          case 2 => fromAddress := b;
          case 3 => amount := b;
        } else {
          index, err := SkipUnknown(d, preIndex);
          if err != NoError {
            return;
          }
        }
        assert Step(BURN, d, preIndex, m) == More(index, Value());
      }
      LoopTurn(BURN, d, index, Value());
      // the generated test for an index past the end comes here: the invariant rules it out
      return NoError;
    }
  }

  class Params {
    var issuer: Bytes
    var denom: Bytes
    var paused: bool
    var maxSupply: Bytes

    constructor ()
      ensures Value() == NO_PARAMS
    {
      issuer, denom, paused, maxSupply := [], [], false, [];
    }

    function Value(): ParamsValue
      reads this
    {
      ParamsValue(issuer, denom, paused, maxSupply)
    }

    method Equal(that: Params) returns (equal: bool)
      ensures equal <==> Value() == that.Value()
    {
      if issuer != that.issuer { return false; }
      if denom != that.denom { return false; }
      if paused != that.paused { return false; }
      if maxSupply != that.maxSupply { return false; }
      return true;
    }

    method Size() returns (n: nat)
      ensures n == |EncodeParams(Value())|
    {
      n := 0;
      if |issuer| > 0 { n := n + 1 + |issuer| + Sov(|issuer|); }
      if |denom| > 0 { n := n + 1 + |denom| + Sov(|denom|); }
      if paused { n := n + 2; }
      if |maxSupply| > 0 { n := n + 1 + |maxSupply| + Sov(|maxSupply|); }
      ParamsSizeIsLength(Value());
    }

    method MarshalToSizedBuffer(dAtA: array<Byte>, end: nat) returns (n: nat)
      requires ParamsSize(Value()) <= end <= dAtA.Length && end < TWO_63
      modifies dAtA
      ensures n == ParamsSize(Value())
      ensures Wrote(old(dAtA[..]), dAtA[..], end - n, end, EncodeParams(Value()))
    {
      ghost var before := dAtA[..];
      var i4 := PrependText(dAtA, end, TAG_4, maxSupply);
      ghost var b4 := dAtA[..];
      var i3 := PrependBool(dAtA, i4, TAG_3_BOOL, paused);
      ghost var b3 := dAtA[..];
      var i2 := PrependText(dAtA, i3, TAG_2, denom);
      ghost var b2 := dAtA[..];
      var i1 := PrependText(dAtA, i2, TAG_1, issuer);
      WroteFour(before, b4, b3, b2, dAtA[..], i1, i2, i3, i4, end,
                TextField(TAG_1, issuer), TextField(TAG_2, denom), BoolField(TAG_3_BOOL, paused),
                    TextField(TAG_4, maxSupply));
      return end - i1;
    }

    method Marshal() returns (dAtA: array<Byte>)
      requires |EncodeParams(Value())| < TWO_63
      ensures fresh(dAtA) && dAtA[..] == EncodeParams(Value())
    {
      hide ParamsSize, EncodeParams;
      var size := Size();
      dAtA := new Byte[size](i => 0);
      ParamsSizeIsLength(Value());
      var n := MarshalToSizedBuffer(dAtA, size);
    }

    method Unmarshal(d: Bytes) returns (err: Error)
      requires |d| < TWO_63
      modifies this
      ensures Outcome(Value(), err) == Decode(PARAMS, d, old(Value()))
    {
      hide Bits.Value, Bits.TagNumber, Bits.TagType, Bits.IsSet, DecodeFrom, Varint, SkipAt, TakeText;
      var index := 0;
      while index < |d|
        invariant 0 <= index <= |d|
        invariant Decode(PARAMS, d, old(Value())) == DecodeFrom(PARAMS, d, index, Value())
        decreases |d| - index
      {
        ghost var m := Value();
        LoopTurn(PARAMS, d, index, m);
        var preIndex := index;
        var wire;
        wire, index, err := ReadVarint(d, index);
        if err != NoError {
          return;
        }
        var fieldNum, wireType := Int32(Bits.TagNumber(wire)), Bits.TagType(wire);
        if wireType == 4 {
          return EndGroupForNonGroup;
        }
        if fieldNum <= 0 {
          return IllegalTag(fieldNum);
        }
        if fieldNum == 3 {
          if wireType != 0 {
            return WrongWireType(wireType, fieldNum);
          }
          var v;
          v, index, err := ReadVarint(d, index);
          if err != NoError {
            return;
          }
          paused := Bits.IsSet(v);
        } else if fieldNum <= 4 {
          if wireType != 2 {
            return WrongWireType(wireType, fieldNum);
          }
          var b;
          b, index, err := ReadText(d, index);
          if err != NoError {
            return;
          }
          match fieldNum
          case 1 => issuer := b;
          case 2 => denom := b;
          case 4 => maxSupply := b;
        } else {
          index, err := SkipUnknown(d, preIndex);
          if err != NoError {
            return;
          }
        }
        assert Step(PARAMS, d, preIndex, m) == More(index, Value());
      }
      LoopTurn(PARAMS, d, index, Value());
      // the generated test for an index past the end comes here: the invariant rules it out
      return NoError;
    }
  }

  class MsgUpdateParams {
    var authority: Bytes
    const params: Params  // embedded by value: its identity never changes

    constructor ()
      ensures Value() == NO_UPDATE && fresh(params)
    {
      authority := [];
      params := new Params();
    }

    function Value(): UpdateParamsValue
      reads this, params
    {
      UpdateParamsValue(authority, params.Value())
    }

    method Size() returns (n: nat)
      ensures n == |EncodeUpdateParams(Value())|
    {
      n := 0;
      if |authority| > 0 { n := n + 1 + |authority| + Sov(|authority|); }
      var l := params.Size();
      n := n + 1 + l + Sov(l);
      ParamsSizeIsLength(params.Value());
      UpdateSizeIsLength(Value());
    }

    method MarshalToSizedBuffer(dAtA: array<Byte>, end: nat) returns (n: nat)
      requires UpdateSize(Value()) <= end <= dAtA.Length && end < TWO_63
      modifies dAtA
      ensures n == UpdateSize(Value())
      ensures Wrote(old(dAtA[..]), dAtA[..], end - n, end, EncodeUpdateParams(Value()))
    {
      ghost var before := dAtA[..];
      ghost var p := EncodeParams(params.Value());
      ParamsSizeIsLength(params.Value());
      var size := params.MarshalToSizedBuffer(dAtA, end);
      ghost var b3 := dAtA[..];
      var j := PrependTag(dAtA, end - size, size, TAG_2);
      ghost var b2 := dAtA[..];
      WroteThen(before, b3, b2, j, end - size, end, [TAG_2] + VarintBytes(size), p);
      var k := PrependText(dAtA, j, TAG_1, authority);
      WroteThen(before, b2, dAtA[..], k, j, end, TextField(TAG_1, authority), Delimit(TAG_2, p));
      return end - k;
    }

    method Marshal() returns (dAtA: array<Byte>)
      requires |EncodeUpdateParams(Value())| < TWO_63
      ensures fresh(dAtA) && dAtA[..] == EncodeUpdateParams(Value())
    {
      hide UpdateSize, EncodeUpdateParams;
      var size := Size();
      dAtA := new Byte[size](i => 0);
      UpdateSizeIsLength(Value());
      var n := MarshalToSizedBuffer(dAtA, size);
    }

    method Unmarshal(d: Bytes) returns (err: Error)
      requires |d| < TWO_63
      modifies this, params
      ensures Outcome(Value(), err) == Decode(UPDATE, d, old(Value()))
    {
      hide Bits.Value, Bits.TagNumber, Bits.TagType, Bits.IsSet, DecodeFrom, Varint, SkipAt, TakeText, TakeNumber;
      var index := 0;
      while index < |d|
        invariant 0 <= index <= |d|
        invariant Decode(UPDATE, d, old(Value())) == DecodeFrom(UPDATE, d, index, Value())
        decreases |d| - index
      {
        ghost var m := Value();
        LoopTurn(UPDATE, d, index, m);
        var preIndex := index;
        var wire;
        wire, index, err := ReadVarint(d, index);
        if err != NoError {
          return;
        }
        var fieldNum, wireType := Int32(Bits.TagNumber(wire)), Bits.TagType(wire);
        if wireType == 4 {
          return EndGroupForNonGroup;
        }
        if fieldNum <= 0 {
          return IllegalTag(fieldNum);
        }
        if fieldNum <= 2 {
          if wireType != 2 {
            return WrongWireType(wireType, fieldNum);
          }
          var b;
          b, index, err := ReadText(d, index);
          if err != NoError {
            return;
          }
          if fieldNum == 1 {
            authority := b;
          } else {
            err := params.Unmarshal(b);
            if err != NoError {
              return;
            }
          }
        } else {
          index, err := SkipUnknown(d, preIndex);
          if err != NoError {
            return;
          }
        }
        assert Step(UPDATE, d, preIndex, m) == More(index, Value());
      }
      LoopTurn(UPDATE, d, index, Value());
      // the generated test for an index past the end comes here: the invariant rules it out
      return NoError;
    }
  }
}
