# A verified model of the `common` package

The `common` package holds the values that the nodes of the chain agree on: how they are written to bytes and read
back, how assets and coins are written as text, which of two values count as the same, and a few arithmetic and
stateful helpers whose results enter consensus. This project models those parts in Dafny and proves what they promise.

`dafny verify dfyconfig.toml` checks everything. The modules, bottom up:

- `Arithmetic`, `Machine`, `Results`, `Text`, `Sorting`, `Selections`: products and quotients, 64-bit integers, optional
  values, strings and their case, what a sort guarantees, and indices in order.
  `ComparisonSorts` is for sorts by a key that is less than the whole element.
- `Varints`, `Skipper`, `Wire`, `Messages`, `Codec`: the protobuf wire format. `Varints` is the shift loop and the
  varint writer. `Skipper` is the skipper for unknown fields, proved against a grammar of fields. `Wire` is the field
  loop that all generated `Unmarshal` functions share, with a schema for what differs between them. `Messages` gives
  five message types as values. `Codec` has them as objects that marshal backwards into a shared buffer and unmarshal
  into themselves. Each method is proved equal to a function on values (`Decode` for `Unmarshal`, `QuorumBytes` and its
  like for the writers), and the laws are proved about these functions. `CoinMessages` has the wire form of coins,
  transactions and solvency messages as values.
- `Canonical`, `Forms`, `Failures`, `CodecExamples`: which bytes of all that a message would accept are written for it,
  which errors bad bytes give and what they leave behind, and each message in full.
- `Assets`, `Preimages`: parsing and printing of assets and coins, and the lines that are hashed.
- `Coins`, `CoinEquality`, `TxEquality`, `PubKeyLists`: adding and subtracting lists of coins, and equality by sorting.
- `SignedPayloads`: the bytes that are signed for transactions and solvency messages, against their equalities.
- `Shares`, `SignificantFigures`, `Medians`, `WeightedMeans`: fixed-point shares, rounding, medians and means.
- `ObservedTxs`, `AddressCache`: the outbound hashes of an observed transaction, and the memo table of addresses.

## Where the code does something else than one would expect

Each of these is proved, with the exact condition under which the expected law does hold.

- `Tx.EqualsEx` is documented not to change its arguments (common/tx.go:146). It compares the gas lists with
  `Gas.Equals`, which sorts both in place. Every sort leaves a list as it was exactly when it is already in order and
  coins with the same text are identical: `TxEquality.GasIsKeptExactly`, with `GasOutOfOrderChanges` as an example.
- `Coins.EqualsEx` sorts on the asset's text only. Two equal bags can compare unequal: one asset listed with amounts 1
  and 2, and with 2 and 1, does with every sort (`CoinEquality.TwoAmountsCompare`). A sort decides on the comparisons of
  keys alone, so lists whose keys compare alike are rearranged alike and their coins meet as they stand; for other
  lists, some sort gives false exactly when two unequal coins can come to stand at the same place:
  `CoinEquality.FalseExactly`, and `AlwaysTrueExactly` in terms of the asset texts. With one and the same sort, the
  comparison is always an equivalence, so a list, or a transaction, equals itself: `ComparesIsEquivalence`,
  `TxEquality.TxEqualsIsEquivalence`.
- `NewTxID` turns the prefix `0x` into `0X`, which it then refuses to parse, and a dotless i into an I, which is another
  letter when case is ignored. The duplicate check of `SetDone` finds a hash again exactly when it parses and has no
  dotless i, and an id that `NewTxID` made exactly when it has 64 bytes: `ObservedTxs.ReparsesExactly`,
  `RepeatIsIgnoredExactly`, `IdIsStoredTwiceExactly`. So no id of 66 ASCII characters is found (`LongIdsAreNeverKnown`).
  Lengths are in bytes, and upper case can shorten an id: `LongSIsRefused` and `LongSShrinks` are examples.
- `PubKey.GetAddress` stores addresses under the upper-case chain but selects the derivation by the chain as given.
  A lower-case spelling of a named chain gives no address before, and an address after, the same key was asked for
  under the chain's own name (`AddressCache.LowerCaseShows`). For keys without a dash, as bech32 has none, this is
  exactly when the cache shows: `TransparentExactly`. With keys that have a dash there are further cases
  (`DashedKeyShows`); `NoticeableExactly` covers them all.
- `Solvency.Hash` prints the chain in upper case and `Solvency.Equals` compares it as it is; they disagree exactly on
  messages that differ in nothing but the case of the chain, such as btc and BTC:
  `Preimages.SolvencyLineAgreesWithEquals`, `LowerCaseSharesLine`.
- `Solvency.Equals` ignores the id and the decimals that are signed. Signing the same bytes and `Equals` disagree
  exactly on messages that are `Equals` but whose ids, or coins in spelling or decimals, differ:
  `SignedPayloads.SolvencyPayloadAgrees`; when the ids are yet to be filled in, only decimals are left:
  `FreshSolvencyAgrees`.
- The line hashed for a transaction can be ambiguous when an address contains a bar. It is so exactly when, besides the
  coins, another part of the line stands between two bars and reads as a list of coins (the empty text is one):
  `Preimages.AmbiguousExactly`, with `BarMakesTxLineAmbiguous` and `BarMayBeHarmless` as examples of either kind.
- The skipper does not compare the number of an end-group tag with that of the start, as the Groups section of the
  Protocol Buffers Encoding guide asks (`Skipper.MismatchedEndTagIsAccepted`). The bytes it passes have one reading
  (`Skipper.ParseUnique`), and follow the guide exactly when the end tags in it match: `Skipper.FollowsGuideExactly`.
- A field number is cut to 32 bits, so the tag of field 2^32 + 1 is taken for field 1: `Wire.TagNumberIsTruncated`. It
  is seen as written exactly below 2^31: `Wire.TagNumberExactly`.
- `GetMedianInt64` gives a median exactly when the two middle values can be added in 64 bits:
  `Medians.Int64MedianExactly`; of the largest integer twice it gives -1 (`LargeValuesOverflow`).
- `RoundSignificantFigures` divides by zero when more than 63 digits are to be dropped, because 10^64 is zero in 64
  bits: `SignificantFigures.PanicsExactly`, for instance on 1 and minus 63 digits (`OneDigitPanics`). With at least one
  significant digit this cannot happen.
- The native denominations `tor` and `x/ruji` do not parse back to their assets: `Assets.NativeRoundTrip`.

## How to read the codec's contracts

`Decode(schema, bytes, at, m)` is the field loop started on message `m`. Its result is `Done` with the message read, or
`Failed` with the error and whatever had been assigned by then. `Unmarshal` is proved to return that error and to leave
exactly that message, on every input. So a lemma about `Decode` is a statement about `Unmarshal`. The methods
`Codec.NetworkFeeThereAndBack` and its like put both halves together: marshalling and unmarshalling into a new object
gives no error and the same value. Which inputs are accepted at all, and with what result, is said without any loop by
`Wire.DecodesExactly`, and for each message by lemmas such as `Messages.QuorumAcceptsExactly`; what a failure leaves
behind is `Failures.FailsExactly`.

A message accepts many encodings of one value: in any order, repeated, with unknown fields. Signers must write the same
one. It is called canonical: elements with shortest varints, of known fields, with increasing numbers, none of them a
default. `Forms.NetworkFeeCanonicalExactly` and its like say, without the writer, that a value has exactly one, which is
what `Marshal` writes; the messages with repeated fields have theirs in order, too (`Forms.QuorumInOrder`).

The methods index the input only within bounds, and every loop is proved to advance and to stay within the input, which
is why the test `iNdEx > l` at the end of each `Unmarshal` never fires.

## Model

| member | source | states |
|---|---|---|
| Varints.ReadVarintExact | common/common.pb.go:2939-2952 | the shift loop succeeds exactly on a terminated varint of at most ten bytes, stops right behind it, and gives the low 64 bits of the number its groups denote |
| Varints.ReadVarintFails | common/common.pb.go:2940-2945 | it fails exactly when no final byte comes in time: overflow if ten bytes are there, unexpected end otherwise; what it leaves is the low 64 bits of the groups it came to |
| Varints.ReadVarintLocal | common/common.pb.go:2939-2952 | bytes behind a varint do not affect how it is read |
| Varints.ReadVarintAt | common/common.pb.go:2939-2952 | the loop over an index computes the same on every input, in bounds, and moves the index by the size read |
| Varints.EncodeVarintCommon | common/common.pb.go:2179-2189 | exactly `sovCommon(v)` bytes below the offset become the varint of v, all others stay |
| Varints.SovIsEncodedLength | common/common.pb.go:2677-2679 | the bit-length formula is the written length, from 1 to 10, for every uint64 |
| Varints.VarintRoundTrip | common/common.pb.go:2179-2189 | what is written is read back as the same word, up to its end, whatever follows |
| Varints.SignedRoundTrip | common/common.pb.go:4877-4891 | an int64 survives as its two's complement word; a negative one takes ten bytes |
| Forms.LongVarints | common/common.pb.go:2179-2189 | 300 is written as ac 02, and minus one as nine times ff and 01 |
| Skipper.SkipToken | common/common.pb.go:6212-6276 | one round of the skipper reads one token, with 64-bit wrap-around of the index |
| Skipper.SkipCommon | common/common.pb.go:6208-6285 | the loop with index and group depth equals the recursive skipper on every input: bounds, progress and each error |
| Skipper.SkipExact | common/common.pb.go:6208-6285 | n bytes that are there are passed exactly when they are one field of the grammar: a varint, fixed or delimited field, or a group nested to any depth |
| Skipper.ParseUnique | common/common.pb.go:6208-6285 | bytes are those of one field at most, tags and lengths included |
| Skipper.FollowsGuideExactly | common/common.pb.go:6265-6271 | passed bytes follow the Groups section exactly when every end tag of their one reading has the number of its start tag |
| Skipper.MismatchedEndTagIsAccepted | common/common.pb.go:6265-6271 | a group of field 1 closed by an end tag of field 2 is passed, and does not follow the guide |
| Skipper.SkipExamples | common/common.pb.go:6208-6285 | field 7 with each of the five wire types that can be skipped, byte by byte |
| Skipper.SkipErrors | common/common.pb.go:6208-6285 | a group that is not closed, an end without a group, and both wire types that are none |
| Wire.ReadTagAt | common/common.pb.go:2938-2960 | tag reading, with its three errors and the 32-bit field number |
| Wire.ReadPayloadAt | common/common.pb.go:2966-2992 | length and payload bounds, with negative and wrapped sums |
| Wire.BytesFieldAt | common/common.pb.go:2963-2993 | a length-delimited field: the wire type test and exactly the payload's bytes |
| Wire.VarintFieldAt | common/common.pb.go:4874-4891 | a varint field, and what a broken one leaves behind |
| Wire.UnknownFieldAt | common/common.pb.go:3118-3131 | a field with an unknown number is skipped from its tag on, without passing the end |
| Wire.TagNumberIsTruncated | common/common.pb.go:2953-2960 | which field number is seen for each number written, and when it is refused |
| Wire.TagNumberExactly | common/common.pb.go:2953-2960 | the number seen is the number written exactly when it is positive and below 2^31 |
| Wire.FieldLocal | common/common.pb.go:2936-3132 | a field is read the same wherever it stands and whatever follows |
| Wire.DecodeConcat | common/common.pb.go:2933-3138 | unmarshalling a + b is unmarshalling b into what a leaves, for every message type |
| Wire.DecodeAnywhere | common/common.pb.go:2933-3138 | a successful result does not depend on the index at which the bytes stand |
| Wire.SkippedExact | common/common.pb.go:3118-3131 | bytes leave no trace exactly when they are a well-formed field under an unknown number |
| Wire.UnknownFieldsAreTransparent | common/common.pb.go:3118-3131 | inserting an unknown field changes neither whether the input decodes nor to what, for every message type |
| Wire.PayloadReplaced | common/common.pb.go:5169-5203 | payloads that a message takes alike can replace each other, lengths adjusted, without changing whether or to what the input decodes |
| Wire.DecodeRepeated | common/common.pb.go:5170-5203 | repeated fields are applied one after the other, for every message type |
| Wire.DecodesExactly | common/common.pb.go:2933-3138 | for every message type: unmarshalling succeeds with a result exactly when the input is a list of well-formed elements of the wanted wire types, and applying their fields in order gives that result |
| Wire.AcceptsExactly | common/common.pb.go:2933-3138 | when acceptance depends on the fields alone, exactly the lists of such elements with acceptable fields are accepted |
| Failures.FailsExactly | common/common.pb.go:2933-3138 | for every message type: unmarshalling fails with an error and a message exactly when the fields of some beginning of the input are taken and the next one fails; the message holds what those fields say and what had arrived of the bad one |
| Failures.RefusedTag | common/common.pb.go:2953-2965 | for every message type, the tags that are refused, in the order of the tests: end of a group, number zero, another wire type than the field has |
| Failures.BrokenTag | common/common.pb.go:2938-2952 | a tag without a final byte: an overflow if ten bytes are there, an unexpected end otherwise, and the message as it was |
| Failures.BrokenLength | common/common.pb.go:2966-2980 | the same for a length |
| Failures.BrokenVarint | common/common.pb.go:4874-4891 | the same for an integer field, which keeps the low 64 bits of the groups it came to |
| Failures.BadLength | common/common.pb.go:2981-2991 | every payload that is longer than the input: invalid when its end is at 2^63 or above, an unexpected end otherwise |
| Failures.BadUnknownLength | common/common.pb.go:3118-3129 | the same for a payload that is skipped |
| Failures.Unskippable | common/common.pb.go:3118-3123 | an unknown field fails with the error of the skipper |
| Messages.AssetMerges | common/common.pb.go:2933-3138 | unmarshalling an encoding of b into a gives the field by field merge |
| Messages.NetworkFeeMerges | common/common.pb.go:4844-4982 | the same for network fees, with signed and unsigned integers |
| Messages.AttestationMerges | common/common.pb.go:4224-4341 | the same for attestations |
| Messages.ErrataTxMerges | common/common.pb.go:5666-5780 | the same for errata |
| Messages.AttestationsAppend | common/common.pb.go:5170-5203 | repeated messages are appended in order behind those that are there |
| Messages.QuorumMerges | common/common.pb.go:5105-5224 | the embedded network fee merges recursively and attestations are appended |
| Messages.AssetRoundTrip | common/common.pb.go:2933-3138 | every asset comes back from its bytes |
| Messages.NetworkFeeRoundTrip | common/common.pb.go:4844-4982 | every network fee comes back |
| Messages.AttestationRoundTrip | common/common.pb.go:4224-4341 | every attestation comes back |
| Messages.ErrataTxRoundTrip | common/common.pb.go:5666-5780 | every errata message comes back |
| Messages.QuorumRoundTrip | common/common.pb.go:5105-5224 | every quorum network fee comes back, with or without a fee, with any number of attestations |
| Messages.QuorumConcatenation | common/common.pb.go:5105-5224 | the concatenation of two encodings decodes to the merge: last one wins, repeated fields append |
| Messages.AssetConcatenation | common/common.pb.go:2933-3138 | the same for assets |
| Messages.QuorumIgnoresUnknown | common/common.pb.go:5204-5217 | a field of any number above 2 between two encodings does not show |
| Messages.UnknownInNetworkFee | common/common.pb.go:4962-4975 | an unknown field inside the embedded network fee, the length in front adjusted, changes neither whether nor to what the outer message decodes |
| Messages.UnknownInAttestation | common/common.pb.go:4321-4334 | the same inside an attestation |
| Messages.AssetAcceptsExactly | common/common.pb.go:2933-3138 | an asset accepts exactly the lists of elements with strings under 1 to 3, varints under 4 to 6 and anything under other numbers |
| Messages.NetworkFeeAcceptsExactly | common/common.pb.go:4844-4982 | the same for network fees |
| Messages.AttestationAcceptsExactly | common/common.pb.go:4224-4341 | the same for attestations |
| Messages.ErrataTxAcceptsExactly | common/common.pb.go:5666-5780 | the same for errata |
| Messages.QuorumAcceptsExactly | common/common.pb.go:5105-5224 | the quorum message accepts exactly the lists whose payloads under 1 and 2 are in turn accepted by a network fee and an attestation |
| Messages.AssetTakes | common/common.pb.go:2961-3132 | which wire type an asset takes under each number: bytes under 1 to 3, varints under 4 to 6, anything under every other |
| Messages.NetworkFeeTakes | common/common.pb.go:4872-4976 | the same for network fees: varints under 1, 3 and 4, bytes under 2 |
| Messages.TwoBytesTakes | common/common.pb.go:4252-4335 | the same for attestations, errata and quorum messages: bytes under 1 and 2 |
| Failures.NetworkFeeFailures | common/common.pb.go:4844-4982 | eight bad inputs of at most two bytes, with the error of each and the fields afterwards |
| Failures.QuorumFailures | common/common.pb.go:5163-5203 | a nested message that fails stays in the outer one as far as it was read |
| Messages.NetworkFeePayloadExact | common/common.go:56-74 | the signed bytes of two network fees are the same exactly when the values are |
| Messages.ErrataTxPayloadExact | common/common.go:127-139 | the same for errata |
| CoinMessages.CoinRoundTrip | common/common.pb.go:3139-3274 | every coin comes back, with asset, amount and decimals |
| CoinMessages.TxRoundTrip | common/common.pb.go:3389-3666 | every transaction comes back, coins and gas in order |
| CoinMessages.SolvencyRoundTrip | common/common.pb.go:5225-5423 | every solvency message comes back |
| CoinMessages.CoinTakes | common/common.pb.go:3167-3268 | the wire types of a coin: bytes under 1 and 2, a varint under 3 |
| CoinMessages.TxTakes | common/common.pb.go:3417-3660 | the wire types of a transaction: bytes under 1 to 7 |
| CoinMessages.SolvencyTakes | common/common.pb.go:5253-5417 | the wire types of a solvency message: bytes under 1 to 4, a varint under 5 |
| Failures.CoinFailures | common/common.pb.go:3234-3253 | a broken flag leaves the asset alone, a broken integer arrives in the coin and in the solvency message |
| Failures.TxFailures | common/common.pb.go:3575-3613 | a coin that fails is in the list that it was read for |
| Canonical.CanonicalUnique | common/common.pb.go:1005-2002 | two canonical encodings of one message are the same bytes: elements with shortest varints and increasing known numbers, none a default, that the message takes |
| Forms.AssetCanonicalExactly | common/common.pb.go:1005-1062 | the encoding of an asset is its one canonical encoding, and no other bytes are |
| Forms.NetworkFeeCanonicalExactly | common/common.pb.go:1682-1710 | the same for network fees |
| Forms.AttestationCanonicalExactly | common/common.pb.go:1434-1454 | the same for attestations |
| Forms.ErrataTxCanonicalExactly | common/common.pb.go:1982-2002 | the same for errata |
| Forms.QuorumInOrder | common/common.pb.go:1774-1806 | the encoding of a quorum message is a list of such elements whose numbers never decrease, and their fields give the message |
| Forms.CoinInOrder | common/common.pb.go:1079-1110 | the same for coins, with increasing numbers |
| Forms.TxInOrder | common/common.pb.go:1164-1233 | the same for transactions, coins before gas before the memo |
| Forms.SolvencyInOrder | common/common.pb.go:1823-1870 | the same for solvency messages |
| Forms.NothingWritten | common/common.pb.go:1005-2002 | nothing is written for messages that hold nothing but defaults |
| Forms.AssetInFull | common/common.pb.go:1005-1062 | the bytes of an asset with all its fields, for every setting of the flags |
| Forms.NetworkFeeInFull | common/common.pb.go:1682-1710 | the bytes of two network fees, with all fields and with the last two |
| Forms.AttestationInFull | common/common.pb.go:1434-1454 | the bytes of an attestation |
| Forms.ErrataTxInFull | common/common.pb.go:1982-2002 | the bytes of an errata message |
| Forms.QuorumInFull | common/common.pb.go:1774-1806 | the bytes of a quorum message with a fee and two attestations, and of one with an empty fee, which is written |
| Forms.CoinInFull | common/common.pb.go:1079-1110 | the bytes of a coin, and of an empty one, whose asset and amount are written |
| Forms.TxInFull | common/common.pb.go:1164-1233 | the bytes of a transaction with all seven fields |
| Forms.SolvencyInFull | common/common.pb.go:1823-1870 | the bytes of a solvency message with all five fields |
| SignedPayloads.Solvency.GetSignablePayload | common/common.go:90-99 | a missing id is filled in and kept; the payload is that of the message with its id |
| SignedPayloads.SignedExactly | common/common.go:76-99 | signing fails exactly for a blank id when the digest of the line is no id, and otherwise changes nothing but a blank id |
| SignedPayloads.TxPayloadReads | common/common.go:246-248 | unmarshalling the signed bytes of a transaction gives every part of it under its own name |
| SignedPayloads.SolvencyPayloadReads | common/common.go:90-99 | the same for a solvency message, with its own id or the digest of its line in upper case |
| SignedPayloads.TxPayloadExact | common/common.go:246-248 | the signed bytes of two transactions are the same exactly when all of both is, spelling, order and decimals included |
| SignedPayloads.SameBytesCompareEqual | common/tx.go:145-170 | transactions with the same signed bytes always compare equal |
| SignedPayloads.SolvencyPayloadExact | common/common.pb.go:1823-1870 | the bytes of two solvency messages are the same exactly when the messages are |
| SignedPayloads.SolvencyPayloadAgrees | common/common.go:90-120 | signed bytes and `Equals` agree except on messages that are `Equals` with other ids or coins |
| SignedPayloads.FreshSolvencyAgrees | common/common.go:90-120 | on messages without an id and with parsed coins they agree except where decimals differ |
| Codec.PutHeader | common/common.pb.go:1786-1790 | length and tag go right below a payload already in the buffer; nothing else changes |
| Codec.PutString | common/common.pb.go:1697-1703 | a string field goes right below the index, or nothing when empty |
| Codec.PutVarint | common/common.pb.go:1687-1691 | a varint field goes right below the index, or nothing when zero |
| Codec.NetworkFee.Size | common/common.pb.go:2467-2487 | the predicted size is the length of the encoding |
| Codec.NetworkFee.MarshalToSizedBuffer | common/common.pb.go:1682-1710 | exactly the last Size bytes below the end become the encoding, no other byte changes |
| Codec.NetworkFee.Marshal | common/common.pb.go:1667-1675 | the new buffer is filled with the encoding from its first byte to its last |
| Codec.NetworkFee.Unmarshal | common/common.pb.go:4844-4982 | error and fields afterwards, broken-off integers included, are those of the field loop on every input |
| Codec.NetworkFee.Equals | common/common.go:60-74 | exactly field-wise equality, the partner of `NetworkFeePayloadExact` |
| Codec.Attestation.Size | common/common.pb.go:2373-2388 | the predicted size is the length of the encoding |
| Codec.Attestation.MarshalToSizedBuffer | common/common.pb.go:1434-1454 | exactly the last Size bytes below the end become the encoding |
| Codec.Attestation.Marshal | common/common.pb.go:1419-1427 | the new buffer is exactly the encoding |
| Codec.Attestation.Unmarshal | common/common.pb.go:4224-4341 | error and fields are those of the field loop on every input |
| Codec.Attestation.Equals | common/common.go:24-32 | exactly equality of key and signature |
| Codec.ErrataTx.Size | common/common.pb.go:2591-2606 | the predicted size is the length of the encoding |
| Codec.ErrataTx.MarshalToSizedBuffer | common/common.pb.go:1982-2002 | exactly the last Size bytes below the end become the encoding |
| Codec.ErrataTx.Marshal | common/common.pb.go:1967-1975 | the new buffer is exactly the encoding |
| Codec.ErrataTx.Unmarshal | common/common.pb.go:5666-5780 | error and fields are those of the field loop on every input |
| Codec.ErrataTx.Equals | common/common.go:131-139 | exactly field-wise equality, the partner of `ErrataTxPayloadExact` |
| Codec.Asset.Size | common/common.pb.go:2190-2218 | the predicted size is the length of the encoding |
| Codec.Asset.MarshalToSizedBuffer | common/common.pb.go:1005-1062 | exactly the last Size bytes below the end become the encoding, flags included |
| Codec.Asset.Marshal | common/common.pb.go:990-998 | the new buffer is exactly the encoding |
| Codec.Asset.Unmarshal | common/common.pb.go:2933-3138 | error and fields are those of the field loop on every input |
| Codec.QuorumNetworkFee.Size | common/common.pb.go:2506-2523 | the predicted size, summed over nested messages, is the length of the encoding |
| Codec.QuorumNetworkFee.MarshalAttestations | common/common.pb.go:1779-1792 | the backward loop puts the attestations below each other in order, in the buffer they share |
| Codec.QuorumNetworkFee.MarshalToSizedBuffer | common/common.pb.go:1774-1806 | exactly the last Size bytes below the end become the encoding, through nested and repeated messages |
| Codec.QuorumNetworkFee.Marshal | common/common.pb.go:1759-1767 | the new buffer is filled from its first byte to its last |
| Codec.QuorumNetworkFee.UnmarshalNetworkFee | common/common.pb.go:5163-5168 | into the fee that is there or into a new one, also when the nested bytes are bad |
| Codec.QuorumNetworkFee.UnmarshalAttestation | common/common.pb.go:5199-5202 | a new attestation is appended first and stays when its bytes are bad |
| Codec.QuorumNetworkFee.UnmarshalField | common/common.pb.go:5112-5217 | one round advances the index within the input and does what the field says |
| Codec.QuorumNetworkFee.Unmarshal | common/common.pb.go:5105-5224 | error and value are those of the field loop on every input; existing objects are kept |
| Codec.QuorumNetworkFee.Equals | common/common.go:180-182 | compares the network fees and nothing else |
| Codec.QuorumNetworkFee.RemoveAttestations | common/common.go:174-178 | keeps, in order, those that equal none of the given ones; true exactly when all are covered |
| Codec.RemainingAttestations | common/common.go:222-239 | the nested loops compute the order-preserving filter, out of the same objects |
| Codec.RemainingTwice | common/common.go:222-239 | removing in two rounds is removing the union at once |
| Codec.RemainingExactly | common/common.go:222-239 | what is left are the values at the increasing indices at which none of the given ones stands |
| Codec.NetworkFeeThereAndBack | common/common.pb.go:4844-4982 | marshalling and unmarshalling into a new object gives no error and the same value |
| Codec.AttestationThereAndBack | common/common.pb.go:4224-4341 | the same for attestations |
| Codec.ErrataTxThereAndBack | common/common.pb.go:5666-5780 | the same for errata |
| Codec.AssetThereAndBack | common/common.pb.go:2933-3138 | the same for assets |
| Codec.QuorumThereAndBack | common/common.pb.go:5105-5224 | the same for quorum network fees |
| Codec.QuorumOntoAnother | common/common.pb.go:5105-5224 | unmarshalling two marshalled messages into one object gives their merge |
| CodecExamples.NetworkFeeExample | common/common.pb.go:1667-1710 | an object with all fields set, its bytes, and the object read back, field by field |
| CodecExamples.AttestationExample | common/common.pb.go:1419-1454 | the same for an attestation |
| CodecExamples.ErrataTxExample | common/common.pb.go:1967-2002 | the same for an errata message |
| CodecExamples.AssetExample | common/common.pb.go:990-1062 | the same for an asset, with every setting of the flags |
| CodecExamples.QuorumExample | common/common.pb.go:1759-1806 | the same for a quorum message with a fee and two attestations |
| Assets.ParsedShape | common/asset.go:53-100 | what the parser accepts has a valid upper-case chain and symbol, a ticker that is the symbol up to its first dash, and at most one of the three flags |
| Assets.ParsedExactly | common/asset.go:53-100 | every asset of that shape comes from some input, and no other does |
| Assets.CutAccepted | common/asset.go:53-100 | with a separator: the input is accepted, and as which asset, exactly when 3 to 10 letters stand before the first separator and symbol characters behind it, the part up to their first dash having 1 to 13 characters; the separator gives the kind |
| Assets.BareAccepted | common/asset.go:74-100 | without one: the same for the symbol, on the native chain and of no other kind |
| Assets.SplitInput | common/asset.go:58-76 | every input has one of these two forms |
| Assets.CutError | common/asset.go:81-97 | which error an input gets: for the chain, then the symbol, then the ticker |
| Assets.ChainExactly | common/chain.go:58-80 | chains are 3 to 10 letters in either case, or one of two letters outside ASCII whose upper case is inside |
| Assets.ParseExamples | common/asset.go:53-100 | BTC.BTC, BTC/BTC, BTC~BTC, BTC-BTC, btc.btc and ETH.USDC-0X1, each with all its fields |
| Assets.PrintExamples | common/asset.go:273-285 | one printed asset of each kind |
| Assets.StringRoundTrip | common/asset.go:273-285 | printing and parsing gives the same asset |
| Assets.ParsePrintParse | common/asset.go:53-100 | any accepted input, printed, parses to the same again |
| Assets.StringInjective | common/asset.go:273-285 | two parsed assets print alike exactly when they are the same |
| Assets.EqualsOnParsed | common/asset.go:154-156 | on parsed assets the case-insensitive `Equals` is identity |
| Assets.NativeRoundTrip | common/asset.go:252-265 | parsing the native denomination gives the asset back exactly when it is neither SWITCHLY.SWITCHLY nor SWITCHLY.RUJI |
| Assets.NativeInjective | common/asset.go:252-265 | no two parsed assets share a native denomination |
| Assets.NativeExamples | common/asset.go:252-265 | the four assets with a denomination of their own, and one without |
| Assets.JsonRoundTrip | common/asset.go:354-366 | parsed assets and the empty asset survive their JSON string |
| Coins.Add | common/coin.go:227-247 | the nested loops put each amount into the first coin of its asset, or at the end |
| Coins.AddAllAt | common/coin.go:227-247 | where every amount ends up, position by position, for any lists |
| Coins.AppendedExactly | common/coin.go:227-247 | the coins that adding appends are the first added ones of each asset not yet listed, in their order, spelled alike and with their decimals |
| Coins.AddConserves | common/coin.go:227-247 | the total of every asset is the sum of both totals, duplicates included |
| Coins.SafeSubtract | common/coin.go:249-263 | the nested loops subtract from the first coin of the asset |
| Coins.SubAllAt | common/coin.go:249-263 | a series of subtractions is one saturating subtraction of their sum, on the first coin of each asset |
| Coins.NoneEmpty | common/coin.go:277-285 | the loop keeps exactly the coins that are not empty, in order |
| Coins.KeptExactly | common/coin.go:277-285 | what is kept are the coins at the increasing indices at which they are not empty |
| Coins.EmptyExactly | common/coin.go:68-71 | a coin of a parsed asset is empty exactly when its amount is zero; a blank chain, symbol or ticker makes any coin empty |
| Coins.AddThenSubtract | common/coin.go:227-263 | subtracting what was added gives the old list, followed only by zero amounts; without empty coins they are the same |
| CoinEquality.EqualsEx | common/coin.go:139-163 | the verdict is the position-wise comparison of what the sort makes of both lists |
| CoinEquality.ComparesIsEquivalence | common/coin.go:139-163 | with any one sort, the comparison is reflexive, symmetric and transitive |
| CoinEquality.GasEquals | common/gas.go:97-117 | the same verdict, true for a list and itself; both arguments are left as the sort arranges them, twice if they are one list, and untouched when the lengths differ |
| CoinEquality.TrueMeansPaired | common/coin.go:139-163 | true always means a one-to-one pairing of equal coins |
| CoinEquality.FalseExactly | common/coin.go:139-163 | for any two lists, some sort gives false exactly when the lengths differ, the keys compare alike and the lists differ as they stand, or the keys do not and two unequal coins can stand at the same place |
| CoinEquality.AlwaysTrueExactly | common/coin.go:139-163 | on pairable lists of coins without a Kelvin sign, every sort gives true exactly when coins of the same text are equal coins or the lists are equal as they stand |
| CoinEquality.KelvinSignCompares | common/coin.go:139-163 | with a Kelvin sign for a K, pairable lists of different texts compare unequal with every sort |
| CoinEquality.TwoAmountsCompare | common/coin.go:139-163 | one asset listed with two amounts, in the two orders: equal bags that compare unequal with every sort |
| CoinEquality.ReorderingIsEqual | common/coin.go:139-163 | with pairwise different asset texts, every sort makes the same list of every reordering |
| CoinEquality.ComparesExactly | common/coin.go:139-163 | on coins of parsed assets, none listed twice, the verdict is exactly that both lists hold the same amounts of the same assets |
| TxEquality.Tx.EqualsEx | common/tx.go:145-170 | exactly the conjunction of all field comparisons; what true implies, when the gas lists are rearranged, and what they then are |
| TxEquality.TxEqualsIsEquivalence | common/tx.go:145-170 | comparing transactions is reflexive, symmetric and transitive |
| TxEquality.TxEqualsExactly | common/tx.go:145-170 | on upper-case ASCII texts and such coins and gas: true exactly when id, chain, addresses and memo are identical and both lists hold the same amounts of the same assets |
| Text.EqualFoldAscii | common/tx.go:43-46 | equality but for case, character by character: the same, or the two cases of one letter |
| Text.CaseExamples | common/tx.go:43-46 | upper and lower case and folding of single characters, those outside ASCII that have a letter inside as the other case among them |
| TxEquality.GasIsKeptExactly | common/tx.go:145-147 | every sort leaves the gas list as it was exactly when it is sorted and coins of the same text are identical |
| TxEquality.GasOutOfOrderChanges | common/tx.go:145-147 | two gas coins out of order always change places |
| PubKeyLists.Equals | common/pubkey.go:365-388 | true exactly when both lists hold the same keys equally often |
| Sorting.LeqExactly | common/coin.go:150-155 | the order of strings is that of a dictionary: a beginning before the whole, otherwise the first difference decides |
| Preimages.CoinTextUnique | common/coin.go:117-119 | two coins print alike exactly when they are equal |
| Preimages.CoinExamples | common/coin.go:117-119 | one coin, two coins and none as text |
| Text.DecimalUnique | common/coin.go:117-119 | a number is printed as the one text of digits that has its value and no leading zero |
| Preimages.ParsePrintedCoin | common/coin.go:33-53 | a printed coin parses to its asset and amount, with decimals zero |
| Preimages.ParseCoinExamples | common/coin.go:33-53 | a text that is read as a coin, and some that are not |
| Preimages.CoinsTextUnique | common/coin.go:187-193 | two coin lists print alike exactly when they agree element by element |
| Preimages.CoinsTextIs | common/coin.go:187-193 | a reader that recognises exactly the texts that lists of parsed coins print |
| Preimages.TxLineSplits | common/tx.go:130-133 | whatever the addresses, two lines are the same exactly when chain up to case, middle part and height are |
| Preimages.AmbiguousExactly | common/tx.go:130-133 | another transaction shares the line exactly when a part of it other than the coins stands between two bars and reads as coins |
| Preimages.TxLineExact | common/tx.go:130-133 | when one of two transactions has no bar in its addresses, the lines are the same exactly when chain up to case, addresses, coins in order and height are |
| Preimages.BarMakesTxLineAmbiguous | common/tx.go:130-133 | a bar next to an empty list of coins: an instance of two transactions with one line |
| Preimages.BarMayBeHarmless | common/tx.go:130-133 | a bar inside an address, and a line that no other transaction shares |
| Preimages.SolvencyLineExact | common/common.go:76-83 | whatever the keys, two solvency lines are the same exactly when chain up to case, key, coins and height are |
| Preimages.SolvencyLineReads | common/common.go:76-83 | the parts can be read off the line: the chain in upper case before the first bar, the height behind the last, the coins between the last two, and the key between |
| Preimages.TxLineReads | common/tx.go:130-133 | the same for a transaction: chain and height at the ends, from address, coins and to address in this order between |
| Preimages.LineExamples | common/common.go:76-83 | one line of either kind, in full |
| Preimages.SolvencyLineAgreesWithEquals | common/common.go:101-120 | hash line and `Equals` agree except on messages that differ in the case of the chain only |
| Preimages.CanonicalSolvencyAgrees | common/common.go:76-120 | on upper-case chains they always agree |
| Preimages.LowerCaseSharesLine | common/common.go:76-120 | btc and BTC share a line and are not `Equals` |
| Shares.SafeShareIsIdeal | common/type_convert.go:19-57 | nothing overflows in between when total and allocation fit; otherwise the recovered panic gives zero |
| Shares.IdealShareExactly | common/type_convert.go:54-55 | the share by inequalities only: nearest to the quotient of allocation and ratio, that one and the ratio nearest to integer parts at twice the precision, and even when halfway |
| Shares.ChopExactly | common/type_convert.go:54-55 | rounding gives the nearest integer, the even one when two are as near |
| Shares.ShareExamples | common/type_convert.go:29-57 | a third of 100, and the halves 5/2 and 7/2, which go to 2 and 4 |
| Shares.SafeShareIsCapped | common/type_convert.go:19-27 | a safe share is at most the allocation, for all inputs |
| Shares.WholeShare | common/type_convert.go:19-27 | the whole total gets exactly the allocation, if and only if the allocation is zero or everything fits |
| Shares.SafeShareIsMonotone | common/type_convert.go:19-57 | more part or more allocation never gets less |
| Shares.SafeShareError | common/type_convert.go:19-57 | the distance to the exact share is at most 1/2 + (allocation + 1) / precision, in both directions |
| Shares.ShareWithinOne | common/type_convert.go:19-57 | the share of an allocation below half the precision is less than one off the exact one |
| SignificantFigures.RoundSignificantFigures | common/significant_figures.go:5-31 | the two loops, with the 64-bit divisor that wraps, give the rounded value or the division by zero for all arguments |
| SignificantFigures.RoundIsIdeal | common/significant_figures.go:5-31 | with at least one digit nothing overflows and the result is the floor to a power of ten |
| SignificantFigures.RoundExactly | common/significant_figures.go:5-31 | with at least one digit, the result is the only multiple of the power of ten that leaves so many digits that is at most the number and less than one multiple below |
| SignificantFigures.RoundExamples | common/significant_figures.go:5-31 | 12345 to two digits is 12000, to five itself, to none zero; 99999 to one digit is 90000 |
| SignificantFigures.RoundingLoss | common/significant_figures.go:5-31 | rounding goes down by less than one unit of the last kept digit |
| SignificantFigures.RoundingKeepsDigits | common/significant_figures.go:5-31 | the number of digits stays |
| SignificantFigures.RoundingMonotone | common/significant_figures.go:5-31 | larger numbers never round to smaller ones, across digit counts |
| SignificantFigures.RoundingComposes | common/significant_figures.go:5-31 | rounding twice is rounding once to the smaller number of digits |
| SignificantFigures.PanicsExactly | common/significant_figures.go:22-30 | the division by zero happens exactly when 64 or more digits are to be dropped |
| SignificantFigures.OneDigitPanics | common/significant_figures.go:22-30 | rounding 1 to minus 63 digits divides by zero |
| Medians.GetMedianUint | common/math.go:31-54 | the caller's slice is left sorted, and the result is that of the sorted slice |
| Medians.GetMedianInt64 | common/math.go:56-82 | the same, with the 64-bit sum and Go's division |
| Medians.MedianExactly | common/math.go:31-82 | the middle value of an odd list; of an even one the mean of the two middle values, rounded down, or in 64 bits and towards zero |
| Medians.MiddleIsMedian | common/math.go:31-82 | in a sorted list the medians are exactly the values between the two middle ones |
| Medians.UintMedianIsMedian | common/math.go:31-54 | at most half of the original values lie below the result and at most half above |
| Medians.Int64MedianExactly | common/math.go:56-82 | the result is a median exactly when the two middle values can be added in 64 bits |
| Medians.LargeValuesOverflow | common/math.go:56-82 | of the largest integer twice the result is -1, which is no median |
| Medians.MedianIgnoresOrder | common/math.go:31-82 | every ordering of the input gives the same slice and the same median |
| WeightedMeans.WeightedMean | common/math.go:85-105 | the loop gives the quotient of the weighted sum; zero weight is found before lists that do not match |
| WeightedMeans.MeanExactly | common/math.go:85-105 | which outcome for any lists: zero weight first, then lists that do not match, then the weighted sum over the weights, rounded down |
| WeightedMeans.MeanExample | common/math.go:85-105 | 10, 20 and 30 with weights 1, 2 and 3 give 23 |
| WeightedMeans.MeanBetween | common/math.go:85-105 | the mean lies between any bounds of the values that have a weight |
| WeightedMeans.MeanScales | common/math.go:85-105 | only the proportions of the weights matter |
| ObservedTxs.ReparsesExactly | common/tx.go:26-41 | an id that NewTxID made parses again exactly when it has 64 bytes |
| ObservedTxs.NewTxIDExactly | common/tx.go:26-41 | the ASCII texts that are ids: 64 characters, or 66 that begin with 0x; the id is the text in upper case |
| ObservedTxs.BlankExactly | common/tx.go:22-23 | the blank id is sixty-four zeros and nothing else |
| ObservedTxs.ObservedTx.GetOutHashes | common/type_observed_tx.go:89-99 | exactly the stored hashes that parse, parsed, in order |
| ObservedTxs.ParsedExactly | common/type_observed_tx.go:89-99 | they are the hashes at the increasing indices at which they parse, in upper case |
| ObservedTxs.ObservedTx.SetDone | common/type_observed_tx.go:140-155 | a known hash changes nothing; any other is appended, and the status set when the list is long enough |
| ObservedTxs.KnownExactly | common/type_observed_tx.go:144-150 | for any list, a hash is known exactly when a stored one parses and, in upper case, equals it ignoring case |
| ObservedTxs.KnownWhenStable | common/type_observed_tx.go:144-150 | when all stored hashes parse and have no dotless i, these are the stored hashes ignoring case |
| ObservedTxs.IdsAreStableExactly | common/tx.go:26-41 | an id that NewTxID made is such a hash exactly when it has 64 bytes |
| ObservedTxs.ListOnlyGrows | common/type_observed_tx.go:140-155 | over every run, earlier lists are prefixes of later ones |
| ObservedTxs.DoneExactly | common/type_observed_tx.go:152-160 | over every run, done exactly when a hash was stored and the list is long enough |
| ObservedTxs.FirstHash | common/type_observed_tx.go:140-155 | the first hash is stored as given, and is enough for up to one output |
| ObservedTxs.RunInvariant | common/type_observed_tx.go:140-155 | over every run of such hashes: none but the blank one is stored twice, the stored ones are exactly those called with, and the length is their number plus that of the blank calls |
| ObservedTxs.RepeatIsIgnoredExactly | common/type_observed_tx.go:144-151 | a repeated call is ignored exactly when the hash parses and has no dotless i |
| ObservedTxs.IdIsStoredTwiceExactly | common/type_observed_tx.go:144-151 | two calls with an id that NewTxID made store it twice exactly when it does not have 64 bytes |
| ObservedTxs.LongIdsAreNeverKnown | common/type_observed_tx.go:144-151 | an id made from 66 ASCII characters is stored on every call |
| ObservedTxs.LongSIsRefused | common/tx.go:26-41 | 64 characters with a long s among them are 65 bytes and refused |
| ObservedTxs.LongSShrinks | common/tx.go:26-41 | a hash of 66 bytes whose id has 64 and is found again |
| AddressCache.Cache.GetAddress | common/pubkey.go:144-290 | result and table afterwards, for hits, misses, unknown chains and failures |
| AddressCache.DirectExactly | common/pubkey.go:159-282 | for every chain, which derivation is used: the eight named chains by exact name, four EVM chains in any case, none otherwise |
| AddressCache.IsEVMExactly | common/chain.go:118-127 | the comparison with the EVM chains accepts exactly their spellings in upper or lower case |
| AddressCache.KeyInjective | common/pubkey.go:150 | for any chains and keys, exactly when two cache keys are the same: same chain and key, or dashes shifted from key to chain |
| AddressCache.RunSound | common/pubkey.go:144-290 | after any calls every entry is what the derivation gives, and no failure is stored |
| AddressCache.NoticeableExactly | common/pubkey.go:144-290 | for all derivations, chains and keys: the cache can be noticed exactly when a supported chain and key share the cache key and have another address |
| AddressCache.EntryUnique | common/pubkey.go:150 | with keys that have no dash, an entry belongs to one chain and key, whatever is asked for |
| AddressCache.GetIsDirect | common/pubkey.go:144-290 | a call for any chain returns what the derivation gives, unless the chain is another spelling of a named one |
| AddressCache.TransparentExactly | common/pubkey.go:150-159 | the cache can be noticed exactly for such a spelling of a chain whose key has an address under the chain's own name |
| AddressCache.LowerCaseShows | common/pubkey.go:150-159 | a lower-case chain has no address, and has one after a call in upper case |
| AddressCache.DashedKeyShows | common/pubkey.go:150 | with a key that has a dash, it can be noticed for a chain that is no such spelling |

## Left out

What the modelled parts do not capture:

- Byte slices are values, of at most 2^63 - 1 bytes; `Unmarshal` reads an immutable sequence, while `Marshal` writes an array. The in-place reuse of a bytes field's backing array (common/common.pb.go:4284) and the difference between a nil and an empty slice are not modelled.
- Size, Marshal and MarshalToSizedBuffer are called on messages whose encoding fits a slice; for others the source's predicted size wraps around. A list of attestations holds no nil pointers, which the source dereferences.
- The varint loops are written once each and shared by the message types; the generated code repeats them in place.
- Upper case, lower case and case folding cover the ASCII letters and the four other characters that any of them maps to an ASCII letter (dotted capital I, dotless i, long s, Kelvin sign), each as Go does; the remaining characters are taken to have no case. Strings are sequences of characters, so a Go string that is not valid UTF-8 is not modelled. The error values of the asset parser say which part was refused, not why.
- Amounts are unbounded naturals; the panic of `cosmos.Uint` beyond 256 bits is not modelled. `cosmos.ParseUint` is taken to accept digits only.
- The decimals behind `GetUncappedShare` are not part of this repository: a quotient is truncated at twice the precision and then rounded half to even, and a decimal above `limit` panics. Precision and limit are parameters of the theorems; the precision is 10^18.
- `sort.Slice` on coins is a parameter: any function that sorts and depends on nothing but the comparisons of keys. The theorems hold for every such sort; where they say what can be false, some such sort makes it so, which need not be that of the Go library. Two gas lists that share part of their memory without being the same slice are not modelled.
- The derivations behind the address cache, the mutex around it, and SHA-256 are outside: derivations are parameters, the hashes are modelled by the lines that go in.
- `ObservedTxs.RunInvariant` is about hashes that are found again; for others `RepeatIsIgnoredExactly` says what happens.
- AddressCache.TransparentExactly: assumes that keys with an address have no dash, which bech32 guarantees; `NoticeableExactly` does without.
- CoinEquality.AlwaysTrueExactly: leaves out coins with a Kelvin sign in their names, which the parser never makes; `FalseExactly` covers them.
- How text and amounts are encoded as bytes is a parameter of `SignedPayloads`, assumed to be injective, and the digest of a line is another. An amount that does not parse is not an error there.

What is not modelled at all:

- The objects and buffers of Coin, Tx and Solvency, which are modelled as values only, and the other message types of `common.pb.go`, which repeat the pattern of the five; the reflection methods and JSON quoting.
- Short codes for assets, `Asset.Valid`, conversions between layers, and tables of chains and gas units: finite tables.
- `ObservedTx.Sign` and `HasSigned`, addresses and signatures: they rest on bech32 and on curve arithmetic of other libraries.
- `MakeEVMGas`, `GetEVMGasFee`, `Adds_deprecated`, `Max`, `Min` and `Abs`: single expressions, or deprecated.
- The daemons, configuration, logging, command line, API stubs and constants of the repository.
