# Stablecoin chain and wallet: a verified model

The chain's stablecoin module receives messages as Protocol Buffers bytes, checks them against
its params, moves coins through the bank and keeps a record of the total supply. The wallet
writes the same messages with its own code, turns typed amounts into the smallest unit, and
shows balances and history. This project models those parts and proves, for all inputs and all
runs, what they promise. `dafny verify dfyconfig.toml` checks everything.

## Reading order

| file | what it holds |
|---|---|
| `Wire.dfy`, `Bits.dfy` | varints, their size formula, and the bit operations they are made of |
| `Grammar.dfy` | a tree grammar of fields and the flat skipper that is proved to recognise it |
| `Decoding.dfy`, `FieldLists.dfy` | the decode loop of every message type at once, and its laws |
| `Messages.dfy`, `Canonical.dfy` | the four message types as values, their encodings, round trips, sizes, field order, and which field decides |
| `Buffers.dfy`, `ChainMessages.dfy` | the generated Go code: writers on a buffer, decoders on an object |
| `WalletCodec.dfy` | the wallet's codecs, and where they agree with the chain |
| `Decimal.dfy`, `Bank.dfy`, `Ledger.dfy` | decimals, balances, and one message's effect |
| `Runs.dfy`, `Keeper.dfy` | any sequence of messages, and the keeper as objects |
| `Doubles.dfy`, `Amounts.dfy` | rounding of a quotient by 10^6, and the wallet's amounts |
| `History.dfy`, `EndToEnd.dfy` | the wallet's history, and a typed amount minted |

## How the source is modelled

- The varint loops work on 64-bit vectors with the source's own bit operations, which `Bits.dfy`
  relates to the numbers the specification speaks of. A byte in a buffer is a number below 256.
  Signed wrap-around of lengths and indices is written out with the branches that look for it.
- Inputs of a decoder are sequences, because the code only reads them. Output buffers are arrays.
  The Go slice `dAtA[:i]` is the pair of an array and an end, so the nested write of
  `MsgUpdateParams` is a write into the same array.
- The helpers of `params.pb.go` (`encodeVarintParams`, `sovParams`, `skipParams` and three
  errors) repeat those of `tx.pb.go` and are modelled once.
- A decoder does not reset its target, so the specification decodes *into* a value. A failed
  decode leaves what was stored before the failure, and the contracts say which value that is.
- A string in a message is the sequence of its bytes on the wire on both sides. What the user
  types and what an event lists are UTF-16 code units, with the language's white space.
- protobufjs is not part of this model. What its reader makes of varints that take more than five
  bytes, or of one longer than ten that it only skips, is a parameter (`Library`) about which
  nothing is assumed.
- Bech32 parsing, the address codec, denomination syntax, white space trimming of params and the
  integer parser are fields of `Ledger.Host`. Only the parser is assumed to do anything:
  `Lawful` says that it reads the decimals integers print as, up to 256 bits.
- A transaction that fails for any reason keeps none of its writes. Panics are verdicts of their
  own; gas and signatures are the flag `aborted` of a delivery; vesting is a map of locks. A fee is
  a transfer of its own, which a failure of what it pays for does not undo, and a transaction of
  several messages is one step for each.
- Empty params: `keeper/msg_update_params_test.go` (lines 40-46) and `types/genesis_test.go`
  (lines 23-25) expect them to be accepted, `Validate` refuses them. The model follows the code.
- The constant `DefaultIssuer` (`types/params.go`, line 13) is not the issuer that `DefaultParams`
  sets. The model follows the function.
- Comparison of hashes (`localeCompare`) is an arbitrary total preorder.
- Rounding to a double is *any* nearest double, ties either way, over the doubles of section 3.4
  of IEEE 754-2019.

## What the proofs found

- **Merging** (section "Last One Wins" of the Protocol Buffers encoding). Decoding `a + b` is
  decoding `b` into the result of `a`. The message is always the same, and so is acceptance. The
  *error* can differ, and `MergeLawExactly` says when: the loop over `b` stops at a length whose
  end fits 63 bits in `b` but not behind `a`. `MergeErrorsDiffer` is an instance.
- **Re-encoding** an accepted input never grows for `Params`, `MsgMint` and `MsgBurn`.
  For `MsgUpdateParams` it can, by at most two bytes, because `params` is written even when it is
  empty: for the empty input, and for a lone authority field whose tag and length are spelled with
  at most one byte to spare, and for no other (`UpdateReencodingGrowsIff`).
- **Wallet and chain** write the same bytes exactly when every length fits 32 bits. Reading, the
  chain truncates the field number to 32 bits and the wallet the tag. Their turns over an accepted
  input are the same exactly when, at every tag, a number that the wallet takes for a declared one
  is the chain's number too (`WalletTurnsAsChain`, in numbers `TagsPart`). That is about turns: the
  final messages may still agree, when what the wallet stores was there already or is overwritten
  later. A field 2^29 + 1 with some text is an input on which they do not (`WideTagsDiverge`).
- **The underflow branch of Burn** is dead in a run that starts with no unrecorded supply, and
  reachable, by Burns alone, as soon as there is some. A genesis export and import makes all supply unrecorded,
  after which no Burn succeeds before the next Mint (`ReimportStopsBurning`).
- **The cap** bounds the record. The coins in existence can pass it exactly when some supply is not
  recorded (`SupplyPassesCapIffBase`), as after an import. A lowered cap does not undo anything:
  the record may stay above it, but no step raises it.
- **Displayed amounts** parse back to themselves exactly when they are doubles and lack enough to
  the next whole STB: with k whole STB and `p` the least power of two above k, what is missing
  times 2^54 must exceed 10^6 `p` (`StaysBelow`). The first amount that is not a double is
  2^53 + 1. All doubles below 2^40 * 10^6 units lack enough; 10^6 * (2^40 + 1) - 64 does not, and
  is shown as 2^40 + 1 STB and a fraction.

## Model

| member | source | states |
|---|---|---|
| Wire.SovIsEncodedSize | stbchain/x/stablecoin/types/tx.pb.go:814-816 | the bit-length formula counts exactly the bytes of the shortest base 128 encoding, for every natural number |
| Wire.SovIsLeast | stbchain/x/stablecoin/types/tx.pb.go:814-816 | the formula is the least count k of septets with v < 128^k, both directions |
| Wire.SovBounds | stbchain/x/stablecoin/types/tx.pb.go:814-816 | a 64-bit value takes one to ten bytes |
| Wire.SovMonotone | stbchain/x/stablecoin/types/params.pb.go:245-247 | a larger value never takes fewer bytes |
| Wire.VarintReadBack | stbchain/x/stablecoin/types/tx.pb.go:719-729 | whatever follows, the decode loop reads back every written 64-bit value and stops right after it |
| Wire.VarintIsBase128 | stbchain/x/stablecoin/types/tx.pb.go:826-839 | a read of n bytes succeeds with v if and only if those bytes are one to ten septets, shortest form or not, whose base 128 sum modulo 2^64 is v |
| Wire.VarintAtLeastSov | stbchain/x/stablecoin/types/tx.pb.go:826-839 | an accepted varint is never shorter than the size formula of its value |
| Wire.VarintLocal | stbchain/x/stablecoin/types/tx.pb.go:826-839 | a successful read is decided by the bytes it consumes alone |
| Wire.VarintErrors | stbchain/x/stablecoin/types/tx.pb.go:826-839 | a read fails with the end-of-input error if and only if fewer than ten bytes are there and all say that more follow, with overflow if and only if the first ten do |
| Wire.ReadVarint | stbchain/x/stablecoin/types/tx.pb.go:826-839 | the loop over index, shift and a 64-bit word, with the source's bit operations, computes that read, with overflow and end-of-input errors, and never leaves the input |
| Wire.OrAccumulates | stbchain/x/stablecoin/types/tx.pb.go:835 | at each of the ten shifts, or-ing the shifted septet into the word is one more term of the base 128 sum modulo 2^64 |
| Wire.SovTx | stbchain/x/stablecoin/types/tx.pb.go:814-816 | the computation on a word with its lowest bit set is the size formula |
| Bits.OrAdds | stbchain/x/stablecoin/types/tx.pb.go:835 | `word \| x << shift` on 64-bit vectors adds the shifted septet where the word is free of it |
| Bits.OrWraps | stbchain/x/stablecoin/types/tx.pb.go:835 | at the last shift, 63, the sum wraps |
| Bits.ShiftWithin | stbchain/x/stablecoin/types/tx.pb.go:826-829 | the overflow test on the shift fires after ten bytes and not before |
| Bits.Septet | stbchain/x/stablecoin/types/tx.pb.go:835 | a byte without its continuation bit is its remainder by 128 |
| Bits.Emit | stbchain/x/stablecoin/types/tx.pb.go:723 | the emitted byte is the low septet plus 128 |
| Bits.Shorten | stbchain/x/stablecoin/types/tx.pb.go:724 | the shifted word stands for the quotient by 128 |
| Bits.TagNumber | stbchain/x/stablecoin/types/tx.pb.go:840 | the field number is the quotient of the tag by 8 |
| Bits.TagType | stbchain/x/stablecoin/types/tx.pb.go:841 | the wire type is the remainder of the tag by 8 |
| Bits.MadeOdd | stbchain/x/stablecoin/types/tx.pb.go:815 | setting the lowest bit makes the number odd |
| Bits.Word | stbchain/x/stablecoin/types/tx.pb.go:545 | a length below 2^64 as a word stands for itself |
| Grammar.ScanRefinesGrammar | stbchain/x/stablecoin/types/tx.pb.go:1377-1454 | the skip ends at n inside the input if and only if the first n bytes are one field of the recursive grammar, groups nested and their numbers unmatched |
| Grammar.FieldEndLocal | stbchain/x/stablecoin/types/tx.pb.go:1377-1454 | a field is recognised by its own bytes whatever follows |
| Grammar.SkipPayload | stbchain/x/stablecoin/types/tx.pb.go:1398-1445 | the switch of the skipper, with the wrapping index sums that go negative |
| Grammar.SkipField | stbchain/x/stablecoin/types/tx.pb.go:1377-1454 | the flat loop with a depth counter terminates on every input, stays inside it, and equals the recursive scan in result and error |
| Grammar.SkipErrors | stbchain/x/stablecoin/types/tx.pb.go:1381-1445 | what the skip of a field ends at or is refused for, wire type by wire type |
| Grammar.OpenGroupIsCutShort | stbchain/x/stablecoin/types/tx.pb.go:1435-1453 | well-formed fields in a group that is never closed are refused as cut short |
| Decoding.StepLocal | stbchain/x/stablecoin/types/tx.pb.go:824-960 | a successful turn of the decode loop is decided by the bytes it consumes |
| Decoding.StepShift | stbchain/x/stablecoin/types/tx.pb.go:824-960 | a turn does the same behind any prefix, up to which of two length errors it reports |
| Decoding.Int32 | stbchain/x/stablecoin/types/tx.pb.go:840 | the field number of 32 bits that is congruent to the quotient |
| Decoding.StepErrors | stbchain/x/stablecoin/types/tx.pb.go:842-853 | an end tag, a field number that is not positive, a wire type other than the declared one and an unreadable varint are refused, in this order, with nothing stored |
| Decoding.LengthErrors | stbchain/x/stablecoin/types/tx.pb.go:868-880 | a length is refused as negative, or as past 63 bits with its start, before it is refused as past the end |
| Decoding.MergeLaw | stbchain/x/stablecoin/types/tx.pb.go:820-965 | for every message type, target and byte strings: once `a` decodes, decoding `a + b` gives the message of decoding `b` into the result, and the same acceptance |
| Decoding.MergeLawExactly | stbchain/x/stablecoin/types/tx.pb.go:868-878 | the two outcomes are equal, error included, if and only if the loop over `b` does not end at a field whose claimed end leaves 63 bits only behind `a` |
| Decoding.SuccessEndsAtTheEnd | stbchain/x/stablecoin/types/tx.pb.go:961-964 | a decode succeeds if and only if its turns end exactly at the end of the input, so the last test for an index past the end never fires |
| Decoding.BoundaryPrefixDecodes | stbchain/x/stablecoin/types/tx.pb.go:820-965 | the input up to any field boundary decodes on its own |
| Decoding.UnknownFieldIsTransparent | stbchain/x/stablecoin/types/tx.pb.go:945-958 | an undeclared field, nested groups included, between two inputs changes no message and no acceptance |
| Decoding.UnknownFieldAtBoundary | stbchain/x/stablecoin/types/tx.pb.go:945-958 | the same at every field boundary of any input, accepted or not; the error stays too if and only if the loop from there does not end at a field whose claimed end leaves 63 bits by the insertion |
| Decoding.DecodePays | stbchain/x/stablecoin/types/params.pb.go:251-416 | if no field adds more to a message's size than it takes on the wire, a decode adds no more than the bytes it reads |
| FieldLists.TurnOfField | stbchain/x/stablecoin/types/tx.pb.go:824-960 | a field of the grammar in place is one turn of the loop, with the store it stands for |
| FieldLists.FieldOfTurn | stbchain/x/stablecoin/types/tx.pb.go:824-960 | every successful turn consumes exactly one field of the grammar |
| FieldLists.DecoderIsFoldOverFields | stbchain/x/stablecoin/types/tx.pb.go:820-965 | a decode succeeds with a message if and only if the input is a list of fields the decoder takes and storing them in order gives that message |
| Messages.DeclaredNumbers | stbchain/proto/stbchain/stablecoin/v1/tx.proto:22-56 | the field numbers each message declares: strings and the nested params delimited, `paused` alone a varint |
| Messages.ParamsIntoAny | stbchain/x/stablecoin/types/params.pb.go:251-416 | decoding an encoding into any target overwrites exactly the fields that are not default |
| Messages.MintIntoAny | stbchain/x/stablecoin/types/tx.pb.go:820-965 | the same for `MsgMint` |
| Messages.BurnIntoAny | stbchain/x/stablecoin/types/tx.pb.go:1016-1161 | the same for `MsgBurn` |
| Messages.UpdateParamsIntoAny | stbchain/x/stablecoin/types/tx.pb.go:1212-1326 | the same for `MsgUpdateParams`, with the nested params merged into those of the target |
| Messages.RoundTrips | stbchain/x/stablecoin/types/tx.pb.go:522-564 | every message of each of the four types whose encoding length fits an int decodes into a zero message as itself |
| Canonical.ParamsInOrder | stbchain/x/stablecoin/types/params.pb.go:171-208 | the encoding is a list of fields, each spelled with the shortest tag and length, with strictly rising numbers, one for each field that is not default and a true bool spelled 1, and storing them gives the message |
| Canonical.MintInOrder | stbchain/x/stablecoin/types/tx.pb.go:537-564 | the same for `MsgMint` |
| Canonical.BurnInOrder | stbchain/x/stablecoin/types/tx.pb.go:604-631 | the same for `MsgBurn` |
| Canonical.UpdateInOrder | stbchain/x/stablecoin/types/tx.pb.go:671-694 | the same for `MsgUpdateParams`, in which the content of `params` is always there |
| Canonical.ParamsLastWins | stbchain/x/stablecoin/types/params.pb.go:279-395 | over any list of fields the decoder takes, each field of the message is the content of its last occurrence, a default one included, or what it was |
| Canonical.MintLastWins | stbchain/x/stablecoin/types/tx.pb.go:849-944 | the same for `MsgMint` |
| Canonical.BurnLastWins | stbchain/x/stablecoin/types/tx.pb.go:1045-1140 | the same for `MsgBurn` |
| Canonical.UpdateLastWins | stbchain/x/stablecoin/types/tx.pb.go:1241-1305 | the same for the authority; the params are what all `params` contents decode to in a row |
| Messages.ParamsFieldsConcatenate | stbchain/x/stablecoin/types/tx.pb.go:1273-1305 | two `params` fields with payloads p1 and p2 act like one with p1 + p2 |
| Messages.MergeErrorsDiffer | stbchain/x/stablecoin/types/tx.pb.go:868-878 | two inputs whose merge is refused with another error than the second alone |
| Messages.ParamsSizeIsLength | stbchain/x/stablecoin/types/params.pb.go:221-243 | the size formula is the length of the in-order encoding |
| Messages.MintSizeIsLength | stbchain/x/stablecoin/types/tx.pb.go:730-749 | the same for `MsgMint` |
| Messages.BurnSizeIsLength | stbchain/x/stablecoin/types/tx.pb.go:760-779 | the same for `MsgBurn` |
| Messages.UpdateSizeIsLength | stbchain/x/stablecoin/types/tx.pb.go:790-803 | the same for `MsgUpdateParams`, whose `params` field is never absent |
| Messages.ReencodingNeverGrows | stbchain/x/stablecoin/types/params.pb.go:221-416 | the size of what any accepted input decodes to is at most the input's length, for `Params`, `MsgMint` and `MsgBurn` |
| Messages.UpdateReencodingGrowsByTwoAtMost | stbchain/x/stablecoin/types/tx.pb.go:790-803 | for `MsgUpdateParams` it is at most two more, and exactly two on the empty input |
| Messages.UpdateReencodingGrowsIff | stbchain/x/stablecoin/types/tx.pb.go:790-803 | it exceeds the input's length if and only if the input is empty or one non-empty authority field whose tag and length take at most one byte more than they need |
| Messages.UpdateWithParamsNeverGrows | stbchain/x/stablecoin/types/tx.pb.go:1273-1305 | with a `params` field anywhere in the input it never does |
| Buffers.EncodeVarint | stbchain/x/stablecoin/types/tx.pb.go:719-729 | writes exactly the size formula's count of bytes, ending at the offset, equal to the shortest encoding, and nothing else |
| Buffers.PrependText | stbchain/x/stablecoin/types/tx.pb.go:542-548 | an empty string writes nothing; another is copied behind its length and tag, ending where the last field began |
| Buffers.PrependBool | stbchain/x/stablecoin/types/params.pb.go:183-192 | true is written as tag and 1, false not at all |
| Buffers.PrependTag | stbchain/x/stablecoin/types/tx.pb.go:545-547 | length and tag go in front of a payload in place |
| Buffers.Copy | stbchain/x/stablecoin/types/tx.pb.go:543-544 | the copied slice and nothing else changes |
| Buffers.WroteFour | stbchain/x/stablecoin/types/params.pb.go:171-208 | four fields written from the last to the first read in order |
| Buffers.ReadText | stbchain/x/stablecoin/types/tx.pb.go:853-880 | a length and its bytes with the three length checks, wrap-around of the end index included |
| Buffers.SkipUnknown | stbchain/x/stablecoin/types/tx.pb.go:945-958 | the default branch: back to the tag, over one field, with its checks |
| ChainMessages.MsgMint.Size | stbchain/x/stablecoin/types/tx.pb.go:730-749 | the computed size is the length of the forward encoding |
| ChainMessages.MsgMint.MarshalToSizedBuffer | stbchain/x/stablecoin/types/tx.pb.go:537-564 | on any buffer of at least the size, the tail becomes the in-order encoding, every byte before it is unchanged, and the index never leaves the buffer |
| ChainMessages.MsgMint.Marshal | stbchain/x/stablecoin/types/tx.pb.go:522-530 | a fresh buffer that is exactly the encoding |
| ChainMessages.MsgMint.Unmarshal | stbchain/x/stablecoin/types/tx.pb.go:820-965 | on every byte string the object and the error end as the decode into its old value, a partial store before an error included |
| ChainMessages.MsgBurn.Size | stbchain/x/stablecoin/types/tx.pb.go:760-779 | as for `MsgMint` |
| ChainMessages.MsgBurn.MarshalToSizedBuffer | stbchain/x/stablecoin/types/tx.pb.go:604-631 | as for `MsgMint` |
| ChainMessages.MsgBurn.Marshal | stbchain/x/stablecoin/types/tx.pb.go:589-597 | as for `MsgMint` |
| ChainMessages.MsgBurn.Unmarshal | stbchain/x/stablecoin/types/tx.pb.go:1016-1161 | as for `MsgMint` |
| ChainMessages.Params.Equal | stbchain/x/stablecoin/types/params.pb.go:123-155 | true if and only if all four fields agree |
| ChainMessages.Params.Size | stbchain/x/stablecoin/types/params.pb.go:221-243 | the computed size is the length of the forward encoding |
| ChainMessages.Params.MarshalToSizedBuffer | stbchain/x/stablecoin/types/params.pb.go:171-208 | the tail of the buffer becomes the in-order encoding, the bool only when set, nothing else changes |
| ChainMessages.Params.Marshal | stbchain/x/stablecoin/types/params.pb.go:156-164 | a fresh buffer that is exactly the encoding |
| ChainMessages.Params.Unmarshal | stbchain/x/stablecoin/types/params.pb.go:251-416 | as for `MsgMint`, with the bool read as a varint other than zero |
| ChainMessages.MsgUpdateParams.Size | stbchain/x/stablecoin/types/tx.pb.go:790-803 | the computed size counts the nested params even when they are empty |
| ChainMessages.MsgUpdateParams.MarshalToSizedBuffer | stbchain/x/stablecoin/types/tx.pb.go:671-694 | the nested message is written in place into the front part of the buffer, then its length, tag and the authority; the tail is the in-order encoding and nothing else changes |
| ChainMessages.MsgUpdateParams.Marshal | stbchain/x/stablecoin/types/tx.pb.go:656-664 | a fresh buffer that is exactly the encoding |
| ChainMessages.MsgUpdateParams.Unmarshal | stbchain/x/stablecoin/types/tx.pb.go:1212-1326 | as for `MsgMint`; a `params` payload merges into the params already there |
| WalletCodec.Writer.Uint32 | stb-wallet/stb-wallet/src/wallet.ts:37 | appends the varint of the value cut to 32 bits |
| WalletCodec.WriteMint | stb-wallet/stb-wallet/src/wallet.ts:35-43 | appends the three fields front to back, empty ones left out |
| WalletCodec.WriteBurn | stb-wallet/stb-wallet/src/wallet.ts:77-85 | the same for burn |
| WalletCodec.ReadMint | stb-wallet/stb-wallet/src/wallet.ts:44-66 | from where the reader stands, to the end of the buffer without a length and for that many bytes with one, the loop over the reader computes the wallet's decode, partial message and error included; an encoding that ends there is read as its message and the reader stops right behind it, whatever stands before and after |
| WalletCodec.ReadBurn | stb-wallet/stb-wallet/src/wallet.ts:86-108 | the same for burn |
| WalletCodec.MintInPlace | stb-wallet/stb-wallet/src/wallet.ts:44-66 | an encoding anywhere in a buffer, read up to its end, gives its message, and the loop stops right there |
| WalletCodec.BurnInPlace | stb-wallet/stb-wallet/src/wallet.ts:86-108 | the same for burn |
| WalletCodec.WalletIsLenient | stb-wallet/stb-wallet/src/wallet.ts:48-64 | a declared field is read as a string whatever wire type its tag has, and a field number zero is skipped |
| WalletCodec.WalletRefuses | stb-wallet/stb-wallet/src/wallet.ts:49-63 | varints cut short by the end of the input, an end tag outside a group and unknown wire types are refused |
| WalletCodec.WalletWritesAsChain | stb-wallet/stb-wallet/src/wallet.ts:34-116 | the front-to-back writer gives the chain's bytes if and only if all lengths fit 32 bits |
| WalletCodec.WalletReadsAsChain | stb-wallet/stb-wallet/src/wallet.ts:44-66 | every input the chain accepts whose tags agree gives the same message in the wallet, unknown fields and nested groups included, if the library reads its varints; tags and lengths of at most five bytes, lengths of 32 bits, are enough for every library |
| WalletCodec.WalletTurnsAsChain | stb-wallet/stb-wallet/src/wallet.ts:48-64 | over such an input the two loops do the same to every target at every turn if and only if all tags agree |
| WalletCodec.TurnsAgreeIff | stb-wallet/stb-wallet/src/wallet.ts:49-63 | at one accepted turn, for every codec of visible strings: equal for all targets if and only if the tag agrees |
| WalletCodec.TagsPart | stb-wallet/stb-wallet/src/wallet.ts:49-50 | a tag disagrees if and only if the low 29 bits of its number are 1, 2 or 3 and the low 32 bits are not |
| WalletCodec.WideTagsDiverge | stb-wallet/stb-wallet/src/wallet.ts:49-50 | under every library, a family of inputs with a tag of 33 bits that the chain skips and the wallet stores; they end apart if and only if the stored text is not empty |
| WalletCodec.WalletAndChainExchange | stb-wallet/stb-wallet/src/wallet.ts:34-116 | each side decodes what the other encoded, for both messages and every library |
| Decimal.ReadIsInverse | stbchain/x/stablecoin/keeper/supply.go:10-30 | a string reads as n if and only if it is the decimal that n prints as |
| Bank.SendMoves | stbchain/x/stablecoin/types/expected_keepers.go:22-23 | a transfer moves the amount out of one balance into another, which may be the same, and leaves all others and the supply |
| Bank.SupplyMoves | stbchain/x/stablecoin/types/expected_keepers.go:20-21 | minting and burning move the supply of their denomination by the amount and no other |
| Bank.OperationsSucceed | stbchain/x/stablecoin/types/expected_keepers.go:20-23 | mint, burn and transfer succeed exactly when sums stay within 256 bits and coins are there and spendable |
| Bank.MintKeepsSolvent | stbchain/x/stablecoin/types/expected_keepers.go:20 | minting keeps the balances of every denomination adding up to its supply |
| Bank.BurnKeepsSolvent | stbchain/x/stablecoin/types/expected_keepers.go:21 | burning does |
| Bank.SendKeepsSolvent | stbchain/x/stablecoin/types/expected_keepers.go:22-23 | transfers do, also from an account to itself |
| Bank.BankKeeper.MintCoins | stbchain/x/stablecoin/types/expected_keepers.go:20 | succeeds unless a sum leaves 256 bits; a refusal changes nothing |
| Bank.BankKeeper.BurnCoins | stbchain/x/stablecoin/types/expected_keepers.go:21 | succeeds unless balance or supply are short; a refusal changes nothing |
| Bank.BankKeeper.SendCoins | stbchain/x/stablecoin/types/expected_keepers.go:22-23 | succeeds exactly with enough spendable coins and room at the recipient; a refusal, even half way, changes nothing |
| Ledger.MintAccepts | stbchain/x/stablecoin/keeper/msg_server.go:24-77 | in a solvent bank Mint succeeds if and only if: params are there, not paused, the message's authority is their issuer, the amount is positive, record and supply plus amount stay within the cap and 256 bits, the recipient parses and is not blocked, and the denomination is valid |
| Ledger.MintRefuses | stbchain/x/stablecoin/keeper/msg_server.go:24-77 | which refusal is returned, each if and only if its test is the first to fail: no params, paused, not the issuer, amount, unreadable cap, cap, recipient; params and record stay, and all of the state unless the last transfer fails |
| Ledger.MintEffect | stbchain/x/stablecoin/keeper/msg_server.go:53-76 | a successful Mint raises record and supply by the amount, within the cap, and leaves the params |
| Ledger.MintBalances | stbchain/x/stablecoin/keeper/msg_server.go:63-71 | ... and raises the recipient's balance; no other balance moves, the module's own included |
| Ledger.BurnAccepts | stbchain/x/stablecoin/keeper/msg_server.go:79-123 | in a solvent bank with supply within 256 bits Burn succeeds if and only if params are there, not paused, the message's authority is their issuer, the holder parses, the denomination is valid, the amount is positive, the holder can spend it and the record covers it |
| Ledger.BurnRefuses | stbchain/x/stablecoin/keeper/msg_server.go:79-123 | which refusal is returned: no params, paused, not the issuer, holder, amount; params and record stay, and an underflow is found after the coins are burnt |
| Ledger.BurnEffect | stbchain/x/stablecoin/keeper/msg_server.go:105-122 | a successful Burn lowers record and supply by the amount and leaves the params |
| Ledger.BurnBalances | stbchain/x/stablecoin/keeper/msg_server.go:105-113 | ... and lowers the holder's balance; no other balance moves |
| Ledger.UpdateAccepts | stbchain/x/stablecoin/keeper/msg_update_params.go:12-32 | UpdateParams succeeds if and only if the authority parses to the module's authority and the new params have a denomination, an issuer that parses and a positive cap; then they are the params, and otherwise nothing changes |
| Ledger.UpdateRefuses | stbchain/x/stablecoin/keeper/msg_update_params.go:12-24 | which refusal is returned, the earlier test first |
| Ledger.DefaultParamsAre | stbchain/x/stablecoin/types/params.go:26-33 | the default issuer, denomination, flag and cap, letter by letter |
| Ledger.DefaultParamsAreValid | stbchain/x/stablecoin/types/params.go:26-59 | the default params pass validation wherever their issuer's address parses, and their cap reads as 10^15 |
| Ledger.RecordedIs | stbchain/x/stablecoin/keeper/supply.go:10-24 | the recorded total is what the record reads as, and zero if it is absent or does not read |
| Ledger.RecordReads | stbchain/x/stablecoin/keeper/supply.go:18-23 | a well-formed record is read back as the number written, never as the fallback |
| Ledger.RecordWritten | stbchain/x/stablecoin/keeper/supply.go:26-30 | what is written within 256 bits is a well-formed record |
| Ledger.MintThenBurn | stbchain/x/stablecoin/keeper/msg_server.go:63-122 | after a successful Mint to an account whose locks its earlier balance covered, burning the same amount from it succeeds and restores all balances, all supplies, the observed record and the params |
| Runs.RunsStaySound | stbchain/x/stablecoin/keeper/msg_server.go:24-123 | over any mix of messages, transfers, fees and other transfers by modules, other modules' mints and burns and failures: balances add up to supply in every denomination, and the record is a decimal below 2^256 that reads back as written |
| Runs.DeliverMovesRecord | stbchain/x/stablecoin/keeper/msg_server.go:74-120 | a delivery changes the record by the amount of a successful Mint or Burn and by nothing else |
| Runs.RecordChangesAreIssued | stbchain/x/stablecoin/keeper/msg_server.go:32-38 | a delivery that changes the record is a Mint or a Burn by the issuer in force, under params that are not paused |
| Runs.ParamsChangesAreSigned | stbchain/x/stablecoin/keeper/msg_update_params.go:13-21 | a delivery that changes the params is an UpdateParams whose authority is the module's, and they become the params it carries |
| Runs.OutsidersChangeNothing | stbchain/x/stablecoin/keeper/msg_server.go:24-123 | a run in which neither the issuer nor the authority signs keeps params and record |
| Runs.FailureChangesNothing | stbchain/x/stablecoin/keeper/msg_server.go:24-123 | a delivery that fails or is aborted leaves the state as it was; any other leaves what its transaction does |
| Runs.RunJoins | stbchain/x/stablecoin/keeper/msg_server.go:24-123 | a run is its deliveries one after the other, in order |
| Runs.TransferMoves | stbchain/x/stablecoin/keeper/msg_server.go:107-109 | a transfer succeeds if and only if the coins can be spent and received, and a user's recipient is not blocked; it moves two balances and nothing else |
| Runs.OthersMove | stbchain/x/stablecoin/types/expected_keepers.go:20-21 | other modules mint and burn within their balance and 256 bits, away from params and record |
| Runs.RunKeepsBase | stbchain/x/stablecoin/keeper/msg_server.go:24-123 | with UpdateParams changing the denomination within a set, the total supply of the set less the record never moves |
| Runs.StaysWithinIff | stbchain/x/stablecoin/keeper/msg_server.go:24-123 | its assumption said of every point of the run: the denomination in force is in the set, and other modules mint and burn outside it |
| Runs.SupplyAgreement | stbchain/x/stablecoin/keeper/msg_server.go:24-123 | with one denomination no other module mints or burns: bank supply = base + record = sum of all balances, after every run |
| Runs.UnderflowUnreachable | stbchain/x/stablecoin/keeper/msg_server.go:116-119 | no run without unrecorded supply reaches a Burn that ends in the underflow branch |
| Runs.UnderflowReachableIffBase | stbchain/x/stablecoin/keeper/msg_server.go:116-119 | with an unpaused module, a valid denomination whose supply fits 256 bits and an address for every holder, some run reaches the branch if and only if there is unrecorded supply, and then Burns alone do |
| Runs.ReimportStopsBurning | stbchain/x/stablecoin/keeper/genesis.go:10-25 | after an export and import no Burn succeeds until the next Mint, and one that would have succeeded underflows |
| Runs.DeliverRespectsCap | stbchain/x/stablecoin/keeper/msg_server.go:47-56 | a step takes the record no higher than the cap, and above a lowered cap no step raises it |
| Runs.RunRespectsCap | stbchain/x/stablecoin/keeper/msg_server.go:47-56 | over any run the record is at most the highest cap ever in force, or where it began |
| Runs.HighestCapIs | stbchain/x/stablecoin/keeper/msg_server.go:47-51 | the highest cap is the cap at some point of the run, and at no point is the cap higher |
| Runs.RunLimitsSupply | stbchain/x/stablecoin/keeper/msg_server.go:47-76 | with one denomination, after every run the coins in existence are at most the unrecorded supply plus the highest cap ever in force, or plus where the record began |
| Runs.SupplyPassesCapIffBase | stbchain/x/stablecoin/keeper/msg_server.go:53-56 | from a record within the cap, with an unpaused module, a valid denomination and an account open to mint to, some run makes more coins than any cap allowed if and only if there is unrecorded supply |
| Runs.ParamsStayValid | stbchain/x/stablecoin/keeper/msg_update_params.go:12-32 | valid params stay valid over every run, so the cap stays readable and positive |
| Keeper.MsgServer.GetTotalSupply | stbchain/x/stablecoin/keeper/supply.go:10-24 | the stored record, zero when it is absent or unreadable |
| Keeper.MsgServer.SetTotalSupply | stbchain/x/stablecoin/keeper/supply.go:26-30 | overwrites the record and nothing else |
| Keeper.MsgServer.Mint | stbchain/x/stablecoin/keeper/msg_server.go:24-77 | the handler, with its early returns and its steps on bank and store, computes the Mint step, what a failure leaves behind included |
| Keeper.MsgServer.Burn | stbchain/x/stablecoin/keeper/msg_server.go:79-123 | the same for Burn |
| Keeper.MsgServer.UpdateParams | stbchain/x/stablecoin/keeper/msg_update_params.go:12-32 | the same for UpdateParams |
| Keeper.MsgServer.Deliver | stbchain/x/stablecoin/keeper/msg_server.go:24-123 | a delivery on the objects is a delivery of the run model, rolled back as a whole on failure |
| Keeper.MsgServer.InitGenesis | stbchain/x/stablecoin/keeper/genesis.go:10-12 | sets the params and leaves record and bank |
| Keeper.MsgServer.ExportGenesis | stbchain/x/stablecoin/keeper/genesis.go:15-25 | the params alone |
| Keeper.ExportAndImport | stbchain/x/stablecoin/keeper/genesis.go:10-25 | a new server from an export has the params and no record, over the same coins |
| Amounts.ParseLiteral | stb-wallet/stb-wallet/src/App.tsx:107-119 | a literal with one dot or comma and any number of digits on either side, between white space, parses to the floor of its value in millionths as a canonical decimal, which Mint reads as the same integer up to 256 bits |
| Amounts.MicrosOfAll | stb-wallet/stb-wallet/src/App.tsx:107-119 | that floor is of all the digits read as one number, scaled |
| Amounts.ParseWhole | stb-wallet/stb-wallet/src/App.tsx:107-119 | the same without a separator |
| Amounts.ParseAnyText | stb-wallet/stb-wallet/src/App.tsx:107-119 | on every text that is not blank: white space falls off its ends, its first comma becomes a dot, and the result is the floor in millionths of the digits before the first dot and those between it and the next, all else passed over |
| Amounts.OnlyDigitsFilters | stb-wallet/stb-wallet/src/App.tsx:115-116 | the digits 0 to 9 are kept in order and nothing else is |
| Amounts.ParseAlwaysDecimal | stb-wallet/stb-wallet/src/App.tsx:107-119 | on every string the result is empty if and only if it is all white space, and otherwise a decimal that Mint reads |
| Amounts.DisplayForm | stb-wallet/stb-wallet/src/App.tsx:27-38 | the display is the whole part, a dot, six digits of the remainder and " STB", with the whole part one too high if the quotient rounded up |
| Amounts.FormatThenParse | stb-wallet/stb-wallet/src/App.tsx:27-38 | what is displayed for a number below 9 * 10^21 parses back to it, or to one STB more if the quotient rounded up, which it does not if enough is missing to the next whole STB, as is always so below 2^34 * 10^6 |
| Amounts.DisplayRoundTrip | stb-wallet/stb-wallet/src/App.tsx:27-38 | for amounts below 9 * 10^21, displaying and parsing gives the amount back if and only if the amount is a double, as all up to 2^53 are, and what it lacks to the next whole STB is more than half a step of the doubles there, as is so for all doubles below 2^40 * 10^6 |
| Doubles.StaysIff | stb-wallet/stb-wallet/src/App.tsx:32 | for a double, any correctly rounded quotient by 10^6 stays below the next whole number if and only if more than half a step is missing |
| Doubles.QuotientFloor | stb-wallet/stb-wallet/src/App.tsx:32 | below 2^34 * 10^6 the floor of the rounded quotient is the exact one, for doubles or not |
| Doubles.DoubleStaysBelow | stb-wallet/stb-wallet/src/App.tsx:32 | every double below 2^40 * 10^6 lacks more than half a step |
| Doubles.QuotientRoundsUp | stb-wallet/stb-wallet/src/App.tsx:32 | 10^6 * (2^40 + 1) - 64 is a double that does not, and its quotient rounds to 2^40 + 1 |
| Doubles.FirstNonDouble | stb-wallet/stb-wallet/src/App.tsx:29 | 2^53 + 1 is not a double and every natural number up to 2^53 is |
| History.ParseTransfers | stb-wallet/stb-wallet/src/wallet.ts:246-313 | something is shown if and only if there is a candidate; it is the one with a message index before others, then of the largest amount, then the earliest; it is sent to the recipient if and only if the sender is the wallet's address and otherwise received from the sender, and its amount is the text in the event |
| History.CandidateCoins | stb-wallet/stb-wallet/src/wallet.ts:248-273 | a transfer is a candidate if and only if it names sender and recipient, one of them is the address, and some listed coin ends in "ustb"; it counts for the integer its first such coin spells, zero if it spells none |
| History.UstbPartOfCoins | stb-wallet/stb-wallet/src/wallet.ts:254-260 | from coins joined by commas, with any white space around them and empty parts between, the amount of the first that ends in "ustb" is taken, and none if and only if there is none |
| History.RanksIsLexicographic | stb-wallet/stb-wallet/src/wallet.ts:275-288 | the score's 0, 1 and 10 never override the amount: the order is message index first, then amount |
| History.HeadIsFirstBest | stb-wallet/stb-wallet/src/wallet.ts:281-288 | the head of the stable sort is the first of the best |
| History.MergePages | stb-wallet/stb-wallet/src/wallet.ts:347-365 | the loop over both pages with a set of seen hashes, then sort and slice, computes the merge |
| History.DedupKeepsFirst | stb-wallet/stb-wallet/src/wallet.ts:349-358 | a transaction stays if and only if it has a hash and none before it has the same |
| History.HistoryIsTopK | stb-wallet/stb-wallet/src/wallet.ts:325-366 | if each page holds the highest of its source, the result has at most `limit` transactions, distinct, heights falling and hashes falling at equal height, contains everything with fewer than `limit` others at its height or above, and nothing with `limit` above it |
| EndToEnd.MintCredits | stbchain/x/stablecoin/keeper/msg_server.go:63-76 | a successful Mint credits record and recipient with the amount and no one else |
| EndToEnd.TypedAmountIsMinted | stb-wallet/stb-wallet/src/App.tsx:107-119 | typed literal, wallet encoding, chain decoding and Mint together: if Mint succeeds, record and recipient gain exactly the literal's value in millionths |
| EndToEnd.PrintedCoinIsFound | stb-wallet/stb-wallet/src/wallet.ts:254-273 | coins of the chain's default denomination, as the chain prints them, are found in a transfer, shown with their number and ranked by it |

## Left out

- Generated code that only repeats the above: `MarshalTo`, the `XXX_` methods, the response messages without fields, `genesis.pb.go`, `query.pb.go`, `module.pb.go`, descriptors, gRPC.
- Nil receivers and arguments: `Size` of a nil message and `Equal` with a nil or another type.
- Decoding.MergeLaw: names the same error only up to the two length errors, because the code does; `MergeLawExactly` gives the condition.
- WalletCodec.WalletReadsAsChain: strings are compared as bytes; what the library turns bytes that are not UTF-8 into is left out.
- `fromPartial`, the registry, and the calls that sign and broadcast: plumbing.
- Ledger.MintAccepts: bank hooks, send restrictions, disabled denominations and account creation are left out; the bank is balances, supplies, locks and a blocked list.
- The integer parser on spellings other than decimals (a plus sign, leading zeros): left open, nothing is proved from it.
- Params storage: the stored value is kept as a value; that its encoding round-trips is `Messages.RoundTrips`.
- Runs.ParamsStayValid: starts from valid params; `InitGenesis` does not validate, so a run may start from others.
- Amounts.DisplayRoundTrip: stops at quotients of 2^53, where every double is whole; inputs to `formatUstb` that are not natural numbers are left out.
- History.ParseTransfers: attributes come decoded, one value for each name; `BigInt` is any function that may fail.
- History.HistoryIsTopK: a transaction is its hash and height here; the entry shown for it is `ParseTransfers`.
- The early return of `fetchTxHistory` for a blank address.
- React state, the wallet extension, RPC and JSON handling, application wiring, testnet commands: I/O.
