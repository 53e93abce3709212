# The chainrice wire codec, modelled and proved in Dafny

The model covers the Protocol Buffers codec in `x/chainrice/types/*.pb.go`: the varint sizer and writer, the
serializers that fill a buffer from its end, the record-by-record `Unmarshal` of `MsgUpdateParams`, `Module`,
`GenesisState` and `Params`, and the group-aware skipper of unknown fields.

- `GoMachine.dfy` has bytes, `uint64`, the wrapping 64-bit `int`, truncation to `int32`, and the bit operators,
  defined on binary digits. Go's `int` is taken to have 64 bits, so a slice or string is at most `MAX_INT` long.
- `Varint.dfy` says what a varint means, gives the shortest encoding and its closed-form length, and has the
  encoding and decoding loops. The generator repeats each loop inline; here it is one method per accumulator
  type. `encodeVarint*` and `skip*` exist in five copies that differ only in their error variables; each is
  modelled once.
- `Grammar.dfy` is the wire format as trees of fields that keep the exact bytes of their varints.
  `Unambiguity.dfy` proves that a byte string has at most one tree.
- `Skipper.dfy` has the skipper's loop. `SkipGrammar.dfy` proves that it accepts exactly the grammar's fields, and
  `SkipFailures.dfy` when it fails and how, with a stack of open groups in place of its depth counter.
- `Parser.dfy` is the function that every `Unmarshal` computes, with a message type as parameter. It takes what is
  left of the input and the index reached, which matters only where an addition may wrap.
  `MessageGrammar.dfy` proves what it accepts and what it decodes, `Acceptance.dfy` spells that out for each message
  with its own field numbers, and `MessageFailures.dfy` proves when it fails, with which error, and what it has
  changed by then. Success and failure are each characterised in both directions, so every call is accounted for.
- `Laws.dfy`, `Truncation.dfy` and `RoundTrip.dfy` derive the laws from that; `Canonical.dfy` is what the
  serializers write.
- `Messages.dfy` has the message classes. Each `Unmarshal` is proved to compute the function of `Parser.dfy` with
  Go's indices and wraps, each writer to produce the canonical encoding and to leave the rest of the buffer alone.

An `Unmarshal` that fails may already have changed the message. Its result is therefore an `Outcome`: the
authority it leaves behind and the error, if any. All laws are about both.

Two properties one might expect do not hold of the code, and are stated with the exact condition under which they
do. Reading `a ++ b` need not fail with the error that reading `b` fails with: `ErrUnexpectedEOF` becomes
`ErrInvalidLength` when an index counted from the start of `a` no longer fits an `int` (`Merge`,
`MergeErrorDiffers`). And `XXX_Marshal` returns `b[:n]` of a buffer filled from its end, which is the encoding
only when the capacity is the message's size or the message is empty (`CapacityExact`).

## Model

| member | source | states |
|---|---|---|
| GoMachine.AddInt | x/chainrice/types/tx.pb.go:403-406 | the sign check after adding two non-negative ints catches every wrap, and nothing else |
| GoMachine.ToInt32 | x/chainrice/types/tx.pb.go:371 | the truncated value is congruent to the word modulo 2^32 and within 32 signed bits |
| GoMachine.OrDisjoint | x/chainrice/types/tx.pb.go:366 | or-ing a group shifted past all bits read so far adds it: no bit is set in both |
| GoMachine.OrShifted | x/chainrice/types/tx.pb.go:366 | one accumulation step at any shift up to 64 adds the group times 2^shift modulo 2^64, so the tenth byte is truncated |
| Varint.ReadVarintExact | x/chainrice/types/tx.pb.go:356-370 | the three outcomes of the reading loop, each if and only if: a varint prefix with the sum of its groups modulo 2^64, ten bytes with the high bit set, or the input ending before either |
| Varint.ReadCut | x/chainrice/types/tx.pb.go:361-363 | on a shortened input the reading is unchanged if the varint survives, and otherwise runs out of input |
| Varint.Accumulate | x/chainrice/types/tx.pb.go:364-366 | the bit operations of one iteration extend the decoded value by one byte |
| Varint.NegativeLengthExact | x/chainrice/types/tx.pb.go:416-433 | a length read into an int is negative exactly when its tenth byte is odd, that is when bit 63 is set |
| Varint.DecodeUint64 | x/chainrice/types/tx.pb.go:356-370 | the loop over bit operations returns the varint's meaning and the index after it, or the right error |
| Varint.DecodeInt | x/chainrice/types/tx.pb.go:416-430 | the loop with an int accumulator reads the same 64 bits as two's complement |
| Varint.SkipVarint | x/chainrice/types/tx.pb.go:539-550 | the loop that drops the value ends where the varint ends, with the same errors |
| Varint.EncodeVarint | x/chainrice/types/tx.pb.go:310-320 | writes the shortest varint into the bytes before the offset, returns where it starts, and changes no other byte |
| Varint.EncodeRead | x/chainrice/types/tx.pb.go:310-320 | what the encoder writes is read back, with any bytes after it, as the same value in exactly sov bytes |
| Varint.SovIsLength | x/chainrice/types/tx.pb.go:345-347 | the closed form (Len64(x or 1) + 6) / 7 is the number of bytes the encoder writes, between 1 and 10 |
| Varint.EncodeMinimal | x/chainrice/types/tx.pb.go:345-347 | no accepted varint with the same value is shorter than the closed form |
| Parser.FieldNumberExact | x/chainrice/types/tx.pb.go:371 | the field number is the tag's number modulo 2^32: itself below 2^31, negative exactly when bit 34 of the tag is set, zero exactly when 32 bits are clear |
| Parser.KindOfExact | x/chainrice/types/tx.pb.go:379-446 | each message's switch takes the text branch, the message branch and the default branch for exactly the numbers its definition gives |
| Unambiguity.FieldUnique | x/chainrice/types/tx.pb.go:516-593 | a field read off the front of any bytes, groups of any depth included, is the only one |
| Unambiguity.FieldsUnique | x/chainrice/types/tx.pb.go:351-464 | the bytes of a list of records determine the list |
| Skipper.NextItem | x/chainrice/types/tx.pb.go:521-587 | reads one tag and moves over its payload; the index goes negative exactly when the claimed end is no int |
| Skipper.Skip | x/chainrice/types/tx.pb.go:516-593 | the loop over a wrapping index and a depth counter computes the skipper's function on every input, with every access in bounds |
| SkipGrammar.SkipField | x/chainrice/types/tx.pb.go:516-593 | a well-formed field, nested groups included, is skipped whole at any depth, whatever follows it |
| SkipGrammar.OpenGroup | x/chainrice/types/tx.pb.go:573-590 | with groups open, success of the loop means: well-formed fields, one end tag, then success with one group fewer |
| SkipGrammar.SkipExact | x/chainrice/types/tx.pb.go:516-593 | the skipper returns n within the input if and only if the first n bytes are one well-formed field, and n past the input if and only if a top-level fixed-size or length-delimited field is cut short after its header |
| SkipGrammar.FieldPrefixFree | x/chainrice/types/tx.pb.go:588-590 | that n is unique |
| SkipFailures.SkipOpened | x/chainrice/types/tx.pb.go:573-590 | after any open groups, each with any fields read in it, the depth counter is their number |
| SkipFailures.FailureIsStuck | x/chainrice/types/tx.pb.go:516-593 | a failing loop is at a record it cannot read, below a stack of open groups that its counter stands for |
| SkipFailures.SkipFailsExact | x/chainrice/types/tx.pb.go:516-593 | the skipper returns an error if and only if, below some stack of open groups, the next bytes call for it: no varint, wire type 6 or 7, a length with bit 63 set or an end past the ints, an end tag with no group open, or the input running out |
| MessageGrammar.RecordOfField | x/chainrice/types/tx.pb.go:371-458 | a fitting field is the first record of any string it starts; reading a known field and skipping an unknown one claim exactly its bytes |
| MessageGrammar.ParseFields | x/chainrice/types/tx.pb.go:354-459 | fitting fields are consumed whole from any index, leaving the message with their last text and the rest still to be read |
| MessageGrammar.UnmarshalExact | x/chainrice/types/tx.pb.go:351-465 | for each message type: success with a given authority if and only if the input is a list of well-formed fields that fit the type and leave that authority behind |
| MessageGrammar.LastOneWins | x/chainrice/types/tx.pb.go:380-411 | of several text fields the last one's payload is kept, whatever other fields stand around it |
| Acceptance.ModuleExact | x/chainrice/types/module.pb.go:186-232 | Module accepts exactly the lists of well-formed fields with positive numbers in which number 1 is length-delimited, and keeps the last number 1's payload |
| Acceptance.UpdateParamsExact | x/chainrice/types/tx.pb.go:379-458 | the same for MsgUpdateParams, with number 2 length-delimited and holding what Params accepts |
| MessageFailures.UnmarshalFailsExact | x/chainrice/types/tx.pb.go:351-465 | for each message type: failure with a given error and authority if and only if the input is fitting fields that leave that authority, then a record whose bytes call for that error |
| MessageFailures.BadTag | x/chainrice/types/tx.pb.go:373-382 | after any accepted input: wire type 4 is an end group, else a number not positive is an illegal tag, else a known number with another wire type than 2 is a wrong one; the authority stays |
| MessageFailures.NegativeLength | x/chainrice/types/tx.pb.go:399-402 | a known field whose length has bit 63 set is an invalid length, and the authority stays |
| MessageFailures.EmbeddedFails | x/chainrice/types/tx.pb.go:441-443 | an embedded Params that fails ends the call with its own error, and the authority stays |
| Laws.Position | x/chainrice/types/tx.pb.go:403-409 | reading the same bytes from two indices gives the same message, and the same error unless exactly one of them makes the claimed end wrap |
| Laws.Merge | x/chainrice/types/tx.pb.go:351-465 | reading a ++ b is reading b into the message a left: same message and verdict; same error if and only if the end b claims does not leave the ints because of a's length |
| Laws.MergeErrorDiffers | x/chainrice/types/tx.pb.go:403-409 | after every non-empty accepted a there is an input whose error kind does change |
| Laws.ForwardCompatible | x/chainrice/types/tx.pb.go:445-458 | well-formed fields with positive numbers other than the message's own, put after any accepted prefix, change neither the message nor the verdict, whatever follows |
| Laws.KnowingLessAcceptsMore | x/chainrice/types/module.pb.go:186-232 | a message type that knows fewer fields accepts everything the other accepts, with the same outcome if they agree on the text fields |
| Laws.SchemaSubset | x/chainrice/types/module.pb.go:158-239 | every accepted MsgUpdateParams is a Module with the same authority, and every accepted message is a Params |
| Acceptance.ParamsExact | x/chainrice/types/params.pb.go:157-206 | Params accepts exactly the lists of well-formed fields whose 32-bit number is positive |
| Acceptance.GenesisExact | x/chainrice/types/genesis.pb.go:160-242 | GenesisState accepts exactly such lists in which each field 1 is length-delimited with a payload Params accepts |
| Laws.NoUnexpectedEndOfGroup | x/chainrice/types/tx.pb.go:373-375 | the skipper's end-of-group error never leaves Unmarshal: the tag check before it has turned such records away |
| Truncation.CutInsideField | x/chainrice/types/tx.pb.go:354-464 | an input cut inside a record fails with ErrUnexpectedEOF, the records before it having been read into the message |
| Truncation.PrefixOfAccepted | x/chainrice/types/tx.pb.go:354-464 | a prefix of an accepted input is accepted if and only if it ends on a record boundary, and otherwise fails with ErrUnexpectedEOF and no other error |
| Canonical.EncodingBytes | x/chainrice/types/tx.pb.go:262-285 | the canonical fields, spelled out: tag, shortest length and payload, empty text left out, embedded message always there |
| Canonical.EncodingSize | x/chainrice/types/tx.pb.go:321-334 | the sum Size adds up is the length of the canonical encoding, for each message type |
| RoundTrip.DecodeEncoding | x/chainrice/types/tx.pb.go:247-285 | decoding what was written succeeds into any message: a written text replaces the one there, an empty one leaves it; a fresh message becomes the one written |
| RoundTrip.EncodingInjective | x/chainrice/types/tx.pb.go:262-285 | messages with different authorities are written differently |
| RoundTrip.Reencode | x/chainrice/types/tx.pb.go:321-334 | re-encoding what a fresh message decoded takes at most the input's length, plus two for an embedded Params, and decodes to itself; for Module the canonical form is the shortest |
| RoundTrip.ReencodeTight | x/chainrice/types/tx.pb.go:321-334 | the plus two is reached for every authority |
| RoundTrip.CapacityExact | x/chainrice/types/tx.pb.go:54-65 | b[:n] is the encoding whatever the buffer held if and only if the capacity is the size or nothing is written |
| Messages.SkipUnknown | x/chainrice/types/tx.pb.go:445-458 | the default branch moves past the skipped record, or reports a wrap as an invalid length and an end past the input as unexpected |
| Messages.TextBounds | x/chainrice/types/tx.pb.go:384-409 | the guards on a string length catch a negative length, a wrapping end and an end past the input, in that order |
| Messages.MessageBounds | x/chainrice/types/tx.pb.go:416-440 | the same for a message length accumulated as an int |
| Messages.TurnIsParse | x/chainrice/types/tx.pb.go:354-459 | one turn of the loop, in absolute indices with every check, is one step of the index-free parser |
| Messages.Params.Unmarshal | x/chainrice/types/params.pb.go:157-206 | computes the parser's outcome on every input, in bounds and terminating |
| Messages.Module.Unmarshal | x/chainrice/types/module.pb.go:158-239 | the same, the authority being changed in place |
| Messages.GenesisState.Unmarshal | x/chainrice/types/genesis.pb.go:160-242 | the same, with the embedded Params read from its own slice |
| Messages.MsgUpdateParams.Unmarshal | x/chainrice/types/tx.pb.go:351-465 | the same with both fields, authority and error being exact on failure too |
| Messages.Module.MarshalToSizedBuffer | x/chainrice/types/module.pb.go:113-126 | writes the encoding into the last bytes of the slice, returns its length, changes nothing else |
| Messages.GenesisState.MarshalToSizedBuffer | x/chainrice/types/genesis.pb.go:114-130 | the same for an embedded message |
| Messages.MsgUpdateParams.Size | x/chainrice/types/tx.pb.go:321-334 | the encoding's length, or a negative number when that is no int |
| Messages.MsgUpdateParams.MarshalToSizedBuffer | x/chainrice/types/tx.pb.go:262-285 | writes the encoding into the last bytes of the slice, returns its length, changes nothing else |
| Messages.MsgUpdateParams.Marshal | x/chainrice/types/tx.pb.go:247-255 | the returned slice is the encoding |
| Messages.MsgUpdateParams.MarshalTo | x/chainrice/types/tx.pb.go:257-260 | the encoding is the buffer's prefix, and the rest of the buffer is untouched |
| Messages.MsgUpdateParams.XXXMarshal | x/chainrice/types/tx.pb.go:58-63 | the encoding ends up at the end of the capacity with what precedes it left as it was, and the returned slice is the first n bytes of that |

## Left out

- RoundTrip.Reencode: inputs within two bytes of the longest slice there can be, because the re-encoding's size may then not be an `int` and `Marshal` cannot allocate it.
- `QueryParamsResponse` is `GenesisState`'s code, and `QueryParamsRequest` and `MsgUpdateParamsResponse` are `Params`'s code, under other names (`query.pb.go:234-459`, `tx.pb.go:287-343`, `tx.pb.go:466-515`); they are not written out again.
- Buffers shorter than `Size()`: Go panics on them, so the writers require room for the encoding.
- Nil receivers, for which `Size` returns zero.
- `Authority` is raw bytes: the code does not check that it is UTF-8. Error values are kinds; their texts are not modelled.
- 32-bit platforms.
- `soz*`, which no message here calls, and `Params.Equal`.
- `String`, `Descriptor`, `XXX_Merge`, `XXX_Size`, `XXX_DiscardUnknown` and the deterministic branch of `XXX_Marshal`: reflection in a library that is not part of this model.
- gRPC stubs, the HTTP gateway, keepers, module wiring, genesis export and the command line: calls into libraries that are not part of this model.
