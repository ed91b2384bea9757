# Tezos natural-number codec and Michelson instruction transcoding, in Dafny

This project models two pieces of a Rust SDK for Tezos and proves what they promise.

**The natural-number byte codec** (`NaturalBytesCoder`) writes an arbitrary-precision non-negative integer as base-128 groups, one per byte.
- The least-significant group comes first.
- Bit 7 of a byte says that another byte of the same number follows.
- Zero is the single byte `0x00`.

This is unsigned LEB128.

Encoding is pure, a tail-recursive accumulation (`NaturalCoder.EncodeWith`, `EncodeUnsigned`, `Encode`).

Decoding consumes bytes from the front of a shared, mutable buffer:
- `ConsumableList.ByteBuffer` models the buffer as a class with a `seq<bv8>` field.
- `NaturalCoder.DecodeWith` and `DecodeConsuming` are methods over that buffer. They are proved against two pure readings: `DecodeFrom`, which is decode_with as a recursive function with an unbounded shift, and `DecodeNatural`, which gives the value and the rest of the bytes directly.
- `Decode` decodes a fresh copy of the buffer.

Arbitrary-precision integers are `nat`. `part << shift` is `part * Pow2(shift)`.

**The instruction engine** generated by the `make_instruction!` and `make_instructions!` macros is modelled once, over schema descriptors. It is not modelled per instruction.

A `Schema` holds what one macro invocation declares:
- the primitive name and tag byte;
- how many required fields, optional fields and boxed (recursive instruction) fields the instruction has;
- whether it has a metadata block.

The parts of the model:
- A generated struct is a `Node`. `$name::new` is its constructor and the generated accessors are its field selectors.
- The `Instruction` enum is `Sequence` or `Op(schema, node)`; the schema stands for the variant.
- The encoder `From<$name> for Micheline` is an imperative method (`InstructionCodec.NodeToMicheline`) that pushes arguments one by one.
- The decoder `TryFrom<PrimitiveApplication> for $name` is a method (`InstructionCodec.NodeFromApplication`) that pops arguments off the front of a local copy of the list.
- Each method is proved equal to its pure reading in `Instructions` (`EncodeNode`, `DecodeNode`).
- The instruction-wide dispatch (`DecodeInstruction`, `DecodeApplication`), the name lookup and the up- and downcasts through `Michelson` and `Data` are pure functions.
- The generic Micheline tree is `MichelineTree.Micheline`. The `Option<Vec<Micheline>>` argument list of a primitive application is the two-case `ArgList`.

The main results are these:
- Codec:
  - `decode(encode(n) ++ rest) == (n, rest)`, for every `n` and `rest`. This holds for the intended decoder, whose shift is unbounded (`NaturalCoder.DecodeEncoded`). The source's `decode_with` keeps its shift in a `u8`, so it meets this only for numbers of at most 37 bytes (`NaturalShift.AgreesUpTo37Bytes`); see "## Findings".
  - Every canonical byte run is the encoding of its value.
- Instructions:
  - `decode(encode(i)) == i` for every well-formed instruction.
  - The converse holds too: a node that fits its schema comes back only if no optional field is absent before a present one or before a boxed field.

## Model

| member | source | states |
|---|---|---|
| ConsumableList.ByteBuffer.ConsumeAt | tezos-core/src/internal/coder/number/natural.rs:47 | in range, removes and returns the byte at the index and shifts the rest down; out of range, returns None and leaves the buffer unchanged |
| NaturalCoder.ToU8 | tezos-core/src/internal/coder/number/natural.rs:41 | a number below 256 becomes the byte with exactly that numeric value, so the `unwrap` cannot fail on a group and its flag |
| NaturalCoder.EncodeUnsigned | tezos-core/src/internal/coder/number/natural.rs:21-26 | the encoding is never empty |
| NaturalCoder.GroupByte | tezos-core/src/internal/coder/number/natural.rs:33-41 | the byte for one step of encode_with; `GroupByteBits` states its low bits are `value % 128` and its flag is set exactly when `value / 128` is non-zero |
| NaturalCoder.EncodeWith | tezos-core/src/internal/coder/number/natural.rs:28-44 | the accumulator is kept as a prefix of the result; a non-zero value appends at least one byte |
| NaturalCoder.Encode | tezos-core/src/internal/coder/number/natural.rs:61-69 | never fails and gives the same bytes as encode_unsigned, so zero is `[0x00]` in both |
| NaturalCoder.ConsumedLength | tezos-core/src/internal/coder/number/natural.rs:46-58 | the bytes one decode reads: each read byte but the last has the continuation bit; the decode stops at the first byte without it, or at the end of the buffer |
| NaturalCoder.DecodeNatural | tezos-core/src/internal/coder/number/natural.rs:79-88 | fails with `InvalidNaturalBytes` exactly on empty input; otherwise the rest is a strictly shorter suffix of the input; `DecodeEncoded` and `CanonicalIsEncoding` tie its value and rest to the encoder |
| NaturalCoder.DecodeFrom | tezos-core/src/internal/coder/number/natural.rs:46-58 | decode_with as a recursive function with an unbounded shift; `DecodeFromValue` states its result as a value and `AgreesWhileShort` relates it to the 8-bit shift |
| NaturalCoder.DecodeWith | tezos-core/src/internal/coder/number/natural.rs:46-58 | returns what the recursive reading `DecodeFrom` gives on the buffer's bytes, and leaves exactly the bytes after those one decode reads; `DecodeFromValue` gives that result as a value |
| NaturalCoder.DecodeFromValue | tezos-core/src/internal/coder/number/natural.rs:46-58 | decode_with, read as a recursive function, gives `decoded` plus the value of the bytes one decode reads, times `2^shift` |
| NaturalCoder.DecodeConsuming | tezos-core/src/internal/coder/number/natural.rs:79-88 | an empty buffer gives `InvalidNaturalBytes` and is left unchanged; otherwise the value and the remaining buffer are those of `DecodeNatural` |
| NaturalCoder.Decode | tezos-core/src/internal/coder/number/natural.rs:71-77 | fails, with `InvalidNaturalBytes`, exactly on empty input; otherwise returns the value of the bytes one decode reads; the caller's bytes are untouched |
| NaturalCoder.GroupByteBits | tezos-core/src/internal/coder/number/natural.rs:33-41 | an emitted byte carries `value % 128` in its low bits and is flagged exactly when `value / 128` is non-zero |
| NaturalCoder.Reassemble | tezos-core/src/internal/coder/number/natural.rs:48-49 | a byte is rebuilt from its 7-bit group and its continuation flag |
| NaturalCoder.EncodeWithAccumulates | tezos-core/src/internal/coder/number/natural.rs:43 | encode_with with an accumulator equals the accumulator followed by encode_with from empty |
| NaturalCoder.GroupsShape | tezos-core/src/internal/coder/number/natural.rs:28-44 | the groups of a non-zero value are canonical, end in a non-zero byte, are worth the value, and are one byte long exactly below 128 |
| NaturalCoder.EncodeShape | tezos-core/src/internal/coder/number/natural.rs:21-44 | the encoding of n is canonical and worth n; it is `[0x00]` iff n is 0; for n > 0 its last byte is non-zero; it is one byte long iff n < 128 |
| NaturalCoder.EncodeSingle | tezos-core/src/internal/coder/number/natural.rs:21-44 | an unflagged byte is the whole encoding of its group |
| NaturalCoder.EncodeFlagged | tezos-core/src/internal/coder/number/natural.rs:28-44 | a flagged byte followed by a non-zero rest is the first byte of the encoding of `group + 128 * rest` |
| NaturalCoder.CanonicalIsEncoding | tezos-core/src/internal/coder/number/natural.rs:21-44 | every canonical byte run is the encoding of its own value, so encodings are unique |
| NaturalCoder.ConsumedCanonical | tezos-core/src/internal/coder/number/natural.rs:47-54 | a decode reads exactly the canonical encoding at the front and nothing after it |
| NaturalCoder.DecodeEncoded | tezos-core/src/internal/coder/number/natural.rs:46-58 | decoding `encode(n) ++ rest` gives n and leaves exactly `rest` |
| NaturalCoder.RoundTrip | tezos-core/src/internal/coder/number/natural.rs:61-88 | decoding the encoding of n gives n and consumes everything |
| NaturalCoder.ValueConcat | tezos-core/src/internal/coder/number/natural.rs:48-52 | groups after the first `\|a\|` bytes are worth `2^(7\|a\|)` times their own value |
| NaturalCoder.ValueAppend | tezos-core/src/internal/coder/number/natural.rs:48-52 | the byte read at index i adds `(byte & 0x7F) << 7i` to the result |
| NaturalCoder.DecodeTruncated | tezos-core/src/internal/coder/number/natural.rs:47-57 | a buffer that runs out while the continuation bit is still set decodes to the value accumulated so far, not an error |
| NaturalCoder.DecodeStops | tezos-core/src/internal/coder/number/natural.rs:47-54 | bytes after the first unflagged byte are left in the buffer untouched |
| NaturalCoder.EncodeSmallVectors | tezos-core/src/internal/coder/number/natural.rs:95-102 | the small vectors of the test table: 0, 1, 10, 42, 64, 127 and `128 → [128, 1]` |
| NaturalCoder.ValueVector14 | tezos-core/src/internal/coder/number/natural.rs:103-106 | `[249,152,177,191,241,161,4]` is worth 18756523543673 |
| NaturalCoder.EncodeVector14 | tezos-core/src/internal/coder/number/natural.rs:103-106 | 18756523543673 encodes to `[249,152,177,191,241,161,4]` |
| NaturalCoder.ValueVector19 | tezos-core/src/internal/coder/number/natural.rs:107-110 | `[136,212,238,142,188,206,156,140,95]` is worth 6852352674543413768 |
| NaturalCoder.EncodeVector19 | tezos-core/src/internal/coder/number/natural.rs:107-110 | 6852352674543413768 encodes to `[136,212,238,142,188,206,156,140,95]` |
| NaturalCoder.DecodeVectors | tezos-core/src/internal/coder/number/natural.rs:138-147 | decoding the test-table bytes gives back their numbers, up to the 19-digit vector |
| NaturalShift.DecodeWithU8 | tezos-core/src/internal/coder/number/natural.rs:46-58 | decode_with with its shift wrapping modulo 256: an unflagged first byte ends the decode with its group added at the current shift |
| NaturalShift.DecodeU8 | tezos-core/src/internal/coder/number/natural.rs:79-88 | decode_consuming over the wrapping shift fails exactly on empty input |
| NaturalShift.AgreesWhileShort | tezos-core/src/internal/coder/number/natural.rs:46-52 | while the shift of the last byte read stays below 256, the wrapping decoder returns what decode_with with an unbounded shift returns |
| NaturalShift.AgreesUpTo37Bytes | tezos-core/src/internal/coder/number/natural.rs:46-52 | numbers of at most 37 bytes decode the same with the 8-bit shift as with an unbounded one |
| NaturalShift.ShiftAfterWraps | tezos-core/src/internal/coder/number/natural.rs:52 | k wrapping steps of 7 move the shift to `(shift + 7k) mod 256` |
| NaturalShift.SkipFlagged | tezos-core/src/internal/coder/number/natural.rs:46-52 | each flagged zero byte adds nothing and moves the wrapping shift one step on, so k of them move it k steps |
| NaturalShift.WrappedShift | tezos-core/src/internal/coder/number/natural.rs:46-52 | after k flagged zero groups, the final 0x01 is read at shift `(shift + 7k) mod 256` |
| NaturalShift.FlaggedOneIsEncoding | tezos-core/src/internal/coder/number/natural.rs:21-44 | k flagged zero groups followed by `0x01` are canonical, worth `2^(7k)`, and the encoding of `2^(7k)` |
| NaturalShift.OverflowEncoding | tezos-core/src/internal/coder/number/natural.rs:21-44 | 2^259 encodes to 37 bytes 0x80 followed by 0x01 |
| NaturalShift.OverflowWrappedDecode | tezos-core/src/internal/coder/number/natural.rs:46-52 | the wrapping decoder reads that encoding as 8 |
| NaturalShift.ShiftOverflowBreaksRoundTrip | tezos-core/src/internal/coder/number/natural.rs:46-58 | the intended decoder gives 2^259 back from its encoding; the as-written one gives 8 |
| MichelineTree.ArgsOf | tezos-michelson/src/michelson/data/instructions/macros.rs:258 | `to_args().unwrap_or(vec![])`; `MissingArgumentsReadAsEmpty` states that a missing argument list decodes exactly as an empty one |
| Instructions.PrimValues | tezos-michelson/src/michelson/data/instructions/macros.rs:89-91 | one PRIM per declared schema, in declaration order, carrying that schema's name and its tag as the one-byte tag list |
| Instructions.Lookup | tezos-michelson/src/michelson/data/instructions/macros.rs:82-85 | the first declared schema with the name; None exactly when no schema has it |
| Instructions.EncodeInstruction | tezos-michelson/src/michelson/data/instructions/macros.rs:37-46 | a sequence is its own Micheline and a declared variant is its node's application; `RoundTrip` states that decoding takes it back |
| Instructions.EncodeNode | tezos-michelson/src/michelson/data/instructions/macros.rs:221-245 | the pure reading of From<$name> for Micheline; `EncodeNodeLayout` states its name, its argument layout and its annotations |
| Instructions.EncodeAll | tezos-michelson/src/michelson/data/instructions/macros.rs:233-235 | one argument per boxed instruction |
| Instructions.EncodeAllElements | tezos-michelson/src/michelson/data/instructions/macros.rs:233-235 | argument j is boxed instruction j encoded |
| Instructions.DecodeNode | tezos-michelson/src/michelson/data/instructions/macros.rs:247-274 | the pure reading of TryFrom<PrimitiveApplication> for $name; `DecodeNodeFails` states every error and `DecodeNodeFields` the node returned, with optional slot j present exactly when argument `nRequired + j` remains (macros.rs:264) |
| Instructions.DecodeBoxed | tezos-michelson/src/michelson/data/instructions/macros.rs:266-268 | the boxed-field pops; `DecodeBoxedCases` states when they succeed, what each field is and the running-out error, and `DecodeBoxedPassesError` that the first field that fails gives its own error |
| Instructions.DecodeApplication | tezos-michelson/src/michelson/data/instructions/macros.rs:78-87 | the name dispatch; `DispatchAcceptsDeclaredNames` and `DecodeInstructionCases` state that an unknown name fails with `InvalidPrimitiveApplication`, that for a declared name the first schema with it decodes the node to `Ok(Op(s, n))` exactly when its `DecodeNode` gives `Ok(n)`, and that its `DecodeNode` error is passed through unchanged |
| Instructions.DecodeInstruction | tezos-michelson/src/michelson/data/instructions/macros.rs:65-76 | TryFrom<Micheline> for Instruction; `DecodeInstructionCases` gives its result for each kind of Micheline: a sequence, another leaf, an unknown name, and for a declared name the first schema's `DecodeNode` outcome, whether success or error |
| Instructions.InstructionToMichelson | tezos-michelson/src/michelson/data/instructions/macros.rs:48-52 | the downcast back to Instruction returns the same instruction |
| Instructions.MichelsonToInstruction | tezos-michelson/src/michelson/data/instructions/macros.rs:54-63 | succeeds iff the input is `Data::Instruction`, returning the wrapped instruction unchanged; otherwise `InvalidMichelsonInstruction` |
| Instructions.NodeToInstruction | tezos-michelson/src/michelson/data/instructions/macros.rs:185-189 | this schema's downcast gives the node back; every other schema's downcast fails with `InvalidMichelsonInstruction` |
| Instructions.InstructionToNode | tezos-michelson/src/michelson/data/instructions/macros.rs:191-200 | succeeds iff the variant is this schema's, returning its node; otherwise `InvalidMichelsonInstruction` |
| Instructions.NodeToMichelson | tezos-michelson/src/michelson/data/instructions/macros.rs:202-206 | the downcast from Michelson to this schema gives the node back |
| Instructions.MichelsonToNode | tezos-michelson/src/michelson/data/instructions/macros.rs:208-219 | succeeds iff the input is `Data::Instruction` holding this schema's variant; otherwise `InvalidMichelsonInstruction` |
| Instructions.Make | tezos-michelson/src/michelson/data/instructions/macros.rs:276-283 | the result downcasts to the node with exactly the given fields and empty (default) metadata |
| InstructionCodec.NodeToMicheline | tezos-michelson/src/michelson/data/instructions/macros.rs:221-245 | the push-by-push encoder yields the application `EncodeNode` describes |
| InstructionCodec.PushPresent | tezos-michelson/src/michelson/data/instructions/macros.rs:228-232 | appends exactly the values of the present optional fields, in order |
| InstructionCodec.PushEncoded | tezos-michelson/src/michelson/data/instructions/macros.rs:233-235 | appends each boxed instruction's encoding, in order |
| InstructionCodec.PopBoxed | tezos-michelson/src/michelson/data/instructions/macros.rs:266-268 | popping the boxed fields off the front returns what `DecodeBoxed` describes: the decoded instructions, the error of the first that fails, or `InvalidPrimitiveApplication` when the arguments run out |
| InstructionCodec.NodeFromApplication | tezos-michelson/src/michelson/data/instructions/macros.rs:247-274 | the pop-from-the-front decoder returns what `DecodeNode` describes, including every error |
| InstructionProperties.DeclaredSchemaIsFound | tezos-michelson/src/michelson/data/instructions/macros.rs:82-85 | with unique names, every declared schema is the one its name dispatches to |
| InstructionProperties.DispatchAcceptsDeclaredNames | tezos-michelson/src/michelson/data/instructions/macros.rs:82-91 | a name dispatches iff it is among `prim_values()`; an unknown name fails with `InvalidPrimitiveApplication` |
| InstructionProperties.PackedPresent | tezos-michelson/src/michelson/data/instructions/macros.rs:228-232 | in a packed optional list, the present fields are the first ones, and the pushed values are theirs in order |
| InstructionProperties.EncodeNodeLayout | tezos-michelson/src/michelson/data/instructions/macros.rs:224-241 | the name is the schema's; the arguments are the required fields, then the present optionals, then each boxed instruction encoded; annotations are the metadata's, or an empty list still wrapped in Some |
| InstructionProperties.DecodeBoxedCases | tezos-michelson/src/michelson/data/instructions/macros.rs:266-268 | boxed fields decode iff enough arguments remain and each decodes; each is the decode of its own argument; running out after only successes is `InvalidPrimitiveApplication` |
| InstructionProperties.DecodeBoxedPassesError | tezos-michelson/src/michelson/data/instructions/macros.rs:266-268 | when every boxed field before argument k decodes and argument k does not, the boxed decode fails with argument k's own error, as the `?` on each boxed field makes it |
| InstructionProperties.DecodeNodeFails | tezos-michelson/src/michelson/data/instructions/macros.rs:252-268 | a wrong name fails before any argument is read; too few arguments for the required fields fail; boxed fields that run out fail; decoding succeeds exactly when none of this happens and every boxed argument decodes |
| InstructionProperties.DecodeNodeFields | tezos-michelson/src/michelson/data/instructions/macros.rs:255-272 | on success: the result fits the schema; the required fields are the first arguments; optional slot j is present iff argument `nRequired + j` exists, and then holds it; each boxed field is its argument decoded; annotations come from the metadata |
| InstructionProperties.BoxedSeeOnlyTheirArguments | tezos-michelson/src/michelson/data/instructions/macros.rs:266-268 | decoding the boxed fields depends only on the arguments they take |
| InstructionProperties.MissingArgumentsReadAsEmpty | tezos-michelson/src/michelson/data/instructions/macros.rs:258 | a missing argument list decodes exactly as an empty one |
| InstructionProperties.ExtraArgumentsIgnored | tezos-michelson/src/michelson/data/instructions/macros.rs:258-272 | once every field has an argument, trailing extra arguments change nothing |
| InstructionProperties.OptionalsRecovered | tezos-michelson/src/michelson/data/instructions/macros.rs:224-235 | from a recoverable node's encoding, the required and optional fields land back in their slots, and the boxed fields start right after the present optionals |
| InstructionProperties.BoxedStartEncoded | tezos-michelson/src/michelson/data/instructions/macros.rs:224-235 | a recoverable node's encoding has exactly nRequired + present + nBoxed arguments, and the decoder's boxed fields start right after the present optionals |
| InstructionProperties.RequiredRecovered | tezos-michelson/src/michelson/data/instructions/macros.rs:224-227 | the first arguments of an encoding are the node's required fields |
| InstructionProperties.SlotsRecovered | tezos-michelson/src/michelson/data/instructions/macros.rs:228-232 | the decoder's optional slots, read from a recoverable node's encoding, are the node's own optional fields |
| InstructionProperties.BoxedArgumentsEncoded | tezos-michelson/src/michelson/data/instructions/macros.rs:233-235 | the boxed fields are encoded right after the required fields and the present optionals |
| InstructionProperties.RoundTrip | tezos-michelson/src/michelson/data/instructions/macros.rs:37-87 | decoding the Micheline of a well-formed instruction gives the instruction back |
| InstructionProperties.RoundTripNode | tezos-michelson/src/michelson/data/instructions/macros.rs:221-274 | decoding a recoverable node's encoding against its own schema gives the node back |
| InstructionProperties.BoxedRecovered | tezos-michelson/src/michelson/data/instructions/macros.rs:266-268 | from a recoverable node's encoding, the boxed fields decode back to the node's own boxed instructions |
| InstructionProperties.BoxedRoundTrip | tezos-michelson/src/michelson/data/instructions/macros.rs:233-235 | the boxed fields of a node that fits its schema decode back from where the encoder pushed them |
| InstructionProperties.RoundTripBoxed | tezos-michelson/src/michelson/data/instructions/macros.rs:233-235 | encoded well-formed boxed instructions decode back in order |
| InstructionProperties.RoundTripNeedsRecoverable | tezos-michelson/src/michelson/data/instructions/macros.rs:224-235 | a node that fits its schema comes back from its encoding only if its optionals are packed and none is absent when boxed fields follow |
| InstructionProperties.RoundTripExactly | tezos-michelson/src/michelson/data/instructions/macros.rs:221-274 | for a node that fits its schema and has well-formed boxed instructions: the node comes back from its encoding iff it is recoverable |
| InstructionProperties.DecodeInstructionCases | tezos-michelson/src/michelson/data/instructions/macros.rs:65-87 | a sequence becomes `Sequence` without any name lookup; other leaves are not applications; an application with an unknown name fails; for a declared name the result is `Ok(Op(s, n))` when the first schema `s` with that name decodes the node to `n`, and that decode's own error otherwise; conversely a decoded variant is the first schema with that name, and its node is that schema's decode |

## Left out

- The leaf field conversions (`into()`/`try_into()` for required and optional field types) are not part of this model: they are defined outside natural.rs and macros.rs, the two modelled files. The model holds leaf fields as the Micheline they convert to and from, so these conversions never fail.
- The metadata type's `TryFrom<&PrimitiveApplication>`, `annotations()` and `Default` are not part of this model, for the same reason. Metadata is its list of annotation strings, read from the application's annotations, so that parse never fails. The default metadata has no annotations.
- `Sequence`'s conversions to and from Micheline are not part of this model. A `Sequence` instruction holds its Micheline items as they are.
- `Micheline → PrimitiveApplication` is not part of this model: it is defined outside natural.rs and macros.rs, so the error it reports is not modelled. The model reports `NotPrimitiveApplication` for a leaf that is not an application.
- Boxed fields are taken to hold `Instruction`s, converted with `TryFrom<Micheline> for Instruction`.
- The concrete instruction table passed to `make_instructions!` is not part of this model. The engine is modelled over any list of schemas.
- The tag byte is carried in `Schema` and `PRIM` only. No conversion reads it.
- `Instruction` variants are identified by their schema value. Two declarations with identical descriptors would be one variant in the model, though they are two types in the source.
- The field counts of a node are not enforced by its type, as the Rust structs are. The model states them as `Fits`, and `DecodeNodeFields` proves that every decoded node fits.
- NaturalCoder.DecodeVectors: does not cover the 32- and 56-digit vectors of the test table (natural.rs:111-123). Their literal computations exceed the verifier's resource bound. `RoundTrip` and `EncodeShape` cover every natural, those two included.
- Debug builds of the source abort on the shift overflow instead of wrapping. `NaturalShift` models the release-build wrap.
- `Natural`'s conversions to and from `BigUint`, and `NaturalBytesCoder::new`, are not modelled: the coder is stateless and a natural is a `nat`.
- The RPC client and request builders under tezos-rpc are not part of this model: they are network I/O.
- The operation and block-header structs under tezos-operation are not part of this model: they are plain data with no behaviour.

## Findings

| source | as written | input that shows it | evidently intended | confidence | as-written member | corrected member |
|---|---|---|---|---|---|---|
| tezos-core/src/internal/coder/number/natural.rs:46-52 | `decode_with` keeps `shift` in a `u8` and adds 7 per byte read, so from the 38th byte of a number on, `shift + 7` overflows: it wraps in release builds and aborts in debug builds | 2^259, whose own encoding is 37 bytes `0x80` then `0x01`; the release build decodes it as 8 | an unbounded shift, so that every encoding decodes back to its number, as it does for every number of at most 37 bytes | high; not executed | NaturalShift.ShiftOverflowBreaksRoundTrip | NaturalCoder.RoundTrip |
