# Verified models of an Ethereum stack

Dafny models of the parts of an Elixir Ethereum stack that are hard to get right, with proofs of what
they are for. Each part has a simple specification (a reference codec, a tree, a graph, a map) and an
implementation that reaches it through offsets, shared budgets, stacks, worklists or overlays.

- **ABI boundary** (`AbiReference`, `AbiPreflight`, `AbiDecode`, `AbiEncode`, `AbiTerms`, `AbiRoundTrip`,
  `AbiValues`, `AbiLeaves`, `AbiShapes`, `AbiRaw`, with `SignedWords` and `Utf8`). The reference codec is
  written from the Solidity Contract ABI Specification, section "Formal Specification of the Encoding".
  Against it stand the bounds check, the encoder of values, the decoder for zero-width aggregates, the term
  conversions and the raw forms. The decoder and the preflight do not count alike: an array of empty arrays
  costs twice in the decoder what it costs in the preflight (`EmptyElementsCostDouble`).
- **RLP** (`Rlp`, `RlpWalk`, `TempoEnvelope`), from Appendix B of the Yellow Paper: a printer and a reader
  that are each other's inverse, the budgeted walk, and the one-byte envelope patch.
- **EIP-712** (`TypeGraph`, `EncodeType`, `StructHash`), from its sections "Definition of encodeType",
  "Definition of encodeData" and "Definition of hashStruct": cycle detection, the worklist over a possibly
  cyclic graph, and the memo table.
- **Call traces** (`CallTrace`, `TraceContent`, `OeTracer`): the specification flattens a call tree, `Run` is
  the tracer as a state machine, and the class keeps real trace objects that are completed in place.
- **Storage pages** (`MaxHeap`, `SortedEntries`, `StorageSlots`, `StorageRange`, `StoragePaging`), **gas
  estimation** (`GasEstimate`), **modified accounts** (`ModifiedAccounts`), **simulated chains**
  (`SimulatedChain`) and the two **witness overlays** (`WitnessOverlays`), after the vendored Erigon sources.
- **Solidity types** (`ArraySuffix`, `SolTypes`, `SolCycles`, `SolRegistry`): one type rendered straight to
  text and through the component tree, and the registry that both look names up in.

`ByteStrings` and `Wrappers` hold what the others share. `dafny verify dfyconfig.toml` checks everything.

A budget that the source passes as `&mut usize` is an in-parameter and an out-parameter. A method that
specifies a loop by a function of its inputs says so in its `ensures`; what that function means is proved
by the lemmas beside it.

Where the code falls short of what one would expect, the model keeps the code and says exactly when:

- the gas search never moves from a lower end of zero, and leaves its interval when the ends add up to
  2^64 or more (`MidBetween`, `MidWraps`, `RoomyIsExact`, `OptimisticAbove`);
- default times of simulated blocks may wrap around (`SanitizedTimes`, `WrappedTime`);
- the two witness overlays part after a deletion (`DeletionParts`, `RecreationParts`);
- text and component tree of a Solidity type part over repeated struct names (`OwnersCompare`,
  `OwnersPart`) and empty structs (`TreeCompares`), and the tree of a type that reaches a cycle of structs
  does not end (`TreeEnds`);
- a changed slot of an account that is absent at both ends is reported as a modified account
  (`ReportedIsModified`, `OrphanReported`).

## Model

| member | source | states |
|---|---|---|
| `AbiPreflight.SchemaSize` | packages/onchain/native/onchain_abi/src/lib.rs:237-255 | an accepted schema has at most 100000 nodes, and a head part and a static width of at most that many words |
| `AbiPreflight.SchemaSizeIsNodeCount` | packages/onchain/native/onchain_abi/src/lib.rs:237-255 | for a type with no dynamic array, every buffer that parses has exactly as many tokens as the schema counts nodes |
| `AbiShapes.SchemaAccepts` | packages/onchain/native/onchain_abi/src/lib.rs:237-255 | a schema is accepted if and only if no part of its type, written out, has more than 100000 nodes; its size is then the number of its nodes |
| `AbiPreflight.HeadOffsetBound` | packages/onchain/native/onchain_abi/src/lib.rs:278-288 | the head sum of an accepted tuple stays below 32 bytes for each schema node, so it cannot overflow |
| `AbiPreflight.ProductInRange` | packages/onchain/native/onchain_abi/src/lib.rs:300-304 | the checked product of an element index and a head width is always in range |
| `AbiPreflight.Spend` | packages/onchain/native/onchain_abi/src/lib.rs:38-41 | a budget of zero is refused, and any other goes down by one |
| `AbiPreflight.WordUsize` | packages/onchain/native/onchain_abi/src/lib.rs:337-342 | succeeds exactly on 32 bytes or more whose first word is a 64-bit number, and returns that number |
| `AbiPreflight.FollowHead` | packages/onchain/native/onchain_abi/src/lib.rs:281-286 | follows a head exactly when the reference can locate the component, to the suffix from which the reference parses the same token; the other slicing sites of the two walks share it |
| `AbiPreflight.Preflight` | packages/onchain/native/onchain_abi/src/lib.rs:267-326 | succeeds if and only if the data is within the byte limit and the reference parses it into at most the budgeted number of tokens (aliased offsets counted every time), and then spends exactly one unit for each; never fails with a schema or leaf error |
| `AbiPreflight.PreflightBody` | packages/onchain/native/onchain_abi/src/lib.rs:277-324 | the same for a body whose own node is paid for, over every kind of type |
| `AbiPreflight.PreflightTuple` | packages/onchain/native/onchain_abi/src/lib.rs:278-290 | the loop over tuple components accepts exactly when the reference parses all of them within the budget |
| `AbiPreflight.PreflightElements` | packages/onchain/native/onchain_abi/src/lib.rs:297-311 | the loop over array elements accepts exactly when the reference parses all of them within the budget, even if they alias |
| `AbiReference.ParseShift` | packages/onchain/native/onchain_abi/src/lib.rs:265-267 | offsets count from the enclosing body only: bytes in front of the position do not change what the reference parses there, which is why sub-slices may be walked |
| `AbiDecode.DecodeCompatible` | packages/onchain/native/onchain_abi/src/lib.rs:346-410 | for every type, zero-width aggregates included, and every byte string: a result is the value of the reference decoder at a cost fixed by the token tree; a failure means malformed data, too small a budget, an invalid leaf, or a length beyond 64 bits; neither of the two schema errors can occur; the recursion ends although arrays are rewritten into larger tuples |
| `AbiDecode.DecodeTuple` | packages/onchain/native/onchain_abi/src/lib.rs:352-377 | a tuple decodes component by component to the reference value, each dynamic non-tuple component under a fresh offset word |
| `AbiDecode.DecodeArray` | packages/onchain/native/onchain_abi/src/lib.rs:378-407 | an array decodes as the tuple of its elements, and the pattern match on its result cannot fail |
| `AbiDecode.ArrayIsTuple` | packages/onchain/native/onchain_abi/src/lib.rs:398-406 | an array with a zero-width element type, or of length zero, parses, decodes and costs like the tuple it is rewritten to, plus one |
| `AbiDecode.PrefixedParams` | packages/onchain/native/onchain_abi/src/lib.rs:363-369 | under the offset-prefixed convention the reference reads a dynamic value exactly as it reads its body in place |
| `AbiDecode.CostAtMostTwiceNodes` | packages/onchain/native/onchain_abi/src/lib.rs:346-410 | decoding spends at most two units for each token of the tree |
| `AbiShapes.TakenApart` | packages/onchain/native/onchain_abi/src/lib.rs:328-350 | a type is taken apart if and only if some part of it has no width, and any other type is decoded whole, for one unit |
| `AbiDecode.AfterPreflight` | packages/onchain/native/onchain_abi/src/lib.rs:830-833 | once the data has passed the preflight, decoding succeeds exactly when the cost fits the budget and the leaves are valid, and never fails on an offset, a length or a truncated head; with twice the preflight's count only a leaf can fail |
| `AbiDecode.EmptyElementsCostDouble` | packages/onchain/native/onchain_abi/src/lib.rs:328-410 | for every n, an array of n empty fixed arrays takes n + 1 units of the preflight and 2 (n + 1) of the decoder, so data may pass the first limit and not the second |
| `AbiEncode.StaticLength` | packages/onchain/native/onchain_abi/src/lib.rs:257-263 | the encoding of a static type has exactly the width that the head part reserves for it |
| `AbiEncode.ComponentPlaced` | packages/onchain/native/onchain_abi/src/lib.rs:281-288 | in the reference encoding, the head of each component leads to that component's own encoding |
| `AbiEncode.ParseEncoded` | packages/onchain/native/onchain_abi/src/lib.rs:859-865 | wherever a reference encoding sits in a buffer, the reference parser reads the same token tree back |
| `AbiEncode.ParseEncodedParams` | packages/onchain/native/onchain_abi/src/lib.rs:859-881 | the same under the calling convention without an outer tuple, where a dynamic value has an offset word of its own |
| `AbiTerms.ListItems` | packages/onchain/native/onchain_abi/src/lib.rs:43-54 | returns the elements exactly of the proper lists no longer than the limit |
| `AbiTerms.FromTerm` | packages/onchain/native/onchain_abi/src/lib.rs:56-172 | succeeds if and only if the term denotes a value of the type, of no more nodes than the budget and no more bytes than the byte budget; returns that value and spends exactly its nodes and bytes; a leaf of one unit and enough bytes gets the answer of its type's own rule |
| `AbiTerms.FromTerms` | packages/onchain/native/onchain_abi/src/lib.rs:144-164 | the loops over components read exactly what all components denote, within both shared budgets |
| `AbiLeaves.UintRead` | packages/onchain/native/onchain_abi/src/lib.rs:69-84 | an unsigned number of whole bytes is read if and only if those bytes are enough for it, and overflows otherwise |
| `AbiLeaves.IntRead` | packages/onchain/native/onchain_abi/src/lib.rs:85-101 | a signed number of whole bytes is read if and only if it is in the two's-complement range of those bytes, as its value modulo 2^256 |
| `AbiLeaves.FixedBytesRead` | packages/onchain/native/onchain_abi/src/lib.rs:116-124 | a binary for bytesN is read if and only if it is no longer than N, which is at most 32; its bytes come first in the word, and every byte behind them is 0 |
| `AbiLeaves.BudgetedBytes` | packages/onchain/native/onchain_abi/src/lib.rs:62-65 | reading a printed value takes from the byte budget exactly the bytes of its binaries |
| `Utf8.ValidIsText` | packages/onchain/native/onchain_abi/src/lib.rs:126-133 | a binary is accepted as a string exactly if it is the UTF-8 encoding of a sequence of Unicode scalar values |
| `AbiTerms.ToTermBudgeted` | packages/onchain/native/onchain_abi/src/lib.rs:174-208 | succeeds if and only if the value has no more nodes than the budget; prints the value and spends exactly its nodes, as many as reading it takes |
| `SignedWords.FromSignExtended` | packages/onchain/native/onchain_abi/src/lib.rs:85-94 | the sign-extended word of a number stands for that number in two's complement, at every width its bytes fit |
| `SignedWords.SignExtendFrom` | packages/onchain/native/onchain_abi/src/lib.rs:187-189 | every word is the sign extension of the number it is printed as |
| `AbiRoundTrip.ReadsToTerm` | packages/onchain/native/onchain_abi/src/lib.rs:56-208 | printing a value of a type and reading the term again gives the value |
| `AbiRoundTrip.ReadsTyped` | packages/onchain/native/onchain_abi/src/lib.rs:56-208 | what a term is read as has the type, and prints as the same term if and only if the term writes its tuples as tuples and its fixed bytes at full width |
| `AbiRoundTrip.TypedShaped` | packages/onchain/native/onchain_abi/src/lib.rs:56-172 | the tokens of a value read at a type have the shape that the reference encoder asks for |
| `AbiRoundTrip.DetokenizeTokenized` | packages/onchain/native/onchain_abi/src/lib.rs:346-410 | a leaf decoder that undoes the leaf encoding makes detokenizing undo tokenizing for every type |
| `AbiRoundTrip.StrictLeafInverts` | packages/onchain/native/onchain_abi/src/lib.rs:346-349 | such a leaf decoder exists: one that accepts exactly the words an encoder may write |
| `AbiValues.DynamicValue` | packages/onchain/native/onchain_abi/src/lib.rs:845-851 | a value of a type is dynamic, by the test on values, exactly if the type is |
| `AbiValues.ValueEncoded` | packages/onchain/native/onchain_abi/src/lib.rs:838-852 | the encoder that is given the value alone writes, for a value of any type, the reference encoding for that type |
| `AbiLeaves.NumberEncoding` | packages/onchain/native/onchain_abi/src/lib.rs:845-851 | booleans, numbers and addresses are encoded as the 32-byte word of the number they are, an address as the number of its 20 bytes, which are the last of the word |
| `AbiLeaves.WordEncoding` | packages/onchain/native/onchain_abi/src/lib.rs:845-851 | bytesN and function values come first in their word, and every byte behind them is 0 |
| `AbiLeaves.BlobEncoding` | packages/onchain/native/onchain_abi/src/lib.rs:845-851 | a byte string or text is encoded as the word of its length, its bytes, and then bytes 0 up to the least multiple of 32 |
| `AbiValues.ParamsEncoded` | packages/onchain/native/onchain_abi/src/lib.rs:838-852 | the same of a value on its own, with an offset word exactly where the type asks for one |
| `AbiValues.EncodeDecodes` | packages/onchain/native/onchain_abi/src/lib.rs:859-881 | what is encoded from a value of any type, arrays of no elements included, parses to its tokens and decodes to the value |
| `AbiValues.SpecAgrees` | packages/onchain/native/onchain_abi/src/lib.rs:572-578 | where no fixed array is without elements, what is dynamic is what the letter of the specification says |
| `AbiValues.NoValueTest` | packages/onchain/native/onchain_abi/src/lib.rs:845-851 | on arrays of no elements no test of values can follow that letter |
| `AbiRaw.ChunkIsEncoding` | packages/onchain/native/onchain_abi/src/lib.rs:845-852 | what raw encoding keeps of a value of any type is its reference encoding with no offset word, and what raw decoding makes of the chunk is the value's own encoding |
| `AbiRaw.RawEncode` | packages/onchain/native/onchain_abi/src/lib.rs:838-858 | succeeds exactly on tuple terms within the node, byte and output limits, and returns the concatenated chunks of the values |
| `AbiRaw.DecodeChunk` | packages/onchain/native/onchain_abi/src/lib.rs:818-835 | a chunk is decoded and printed exactly when it passes the preflight, its leaves are valid and what it costs is still there |
| `AbiRaw.RawDecode` | packages/onchain/native/onchain_abi/src/lib.rs:802-837 | succeeds exactly on one chunk for each component, in all within the byte limit and all decodable within the one shared budget, and returns the terms of their values in order |
| `AbiRaw.ChunkRoundTrip` | packages/onchain/native/onchain_abi/src/lib.rs:802-858 | the chunk of a value of any type decodes if and only if the value's own encoding is within the byte limit and the value within the node limit; it then parses to the value's tokens, decodes to the value, and costs exactly what decoding and printing the value cost |
| `AbiRaw.TermRoundTrip` | packages/onchain/native/onchain_abi/src/lib.rs:56-208 | a term that is read, raw-encoded, decoded and printed comes back if and only if it is canonical and its chunk is within both limits |
| `AbiRaw.ChunksRoundTrip` | packages/onchain/native/onchain_abi/src/lib.rs:818-835 | the chunks of any number of values decode if and only if each is within its limits, to the terms of the values and at the sum of their costs |
| `AbiRaw.RawRoundTrip` | packages/onchain/native/onchain_abi/src/lib.rs:802-858 | raw decoding what raw encoding writes for the components of a tuple succeeds if and only if all bytes, each value's own encoding and the cost of all values are within the limits, and gives back the terms of the values |
| `Rlp.RlpLenBytes` | packages/onchain_evm/native/onchain_evm/src/semantics_verification.rs:297-300 | the bytes of a length are its shortest big-endian form |
| `Rlp.RlpHeader` | packages/onchain_evm/native/onchain_evm/src/semantics_verification.rs:302-311 | the header of a string or of a list is the one that Appendix B of the Yellow Paper gives for its length |
| `Rlp.RlpBytes` | packages/onchain_evm/native/onchain_evm/src/semantics_verification.rs:313-320 | the bytes of a string are its encoding as a tree |
| `Rlp.RlpList` | packages/onchain_evm/native/onchain_evm/src/semantics_verification.rs:322-329 | the bytes of a list frame the concatenation of its encoded items |
| `Rlp.UnframeFrame` | packages/onchain_evm/native/onchain_evm/src/semantics_verification.rs:302-329 | reading a framed item gives the item and exactly the bytes that follow it |
| `Rlp.FrameUnframe` | packages/onchain_evm/native/onchain_evm/src/semantics_verification.rs:302-329 | whatever is read as an item is the framing of that item: headers are canonical |
| `Rlp.ParseEncodeAll` | packages/onchain_evm/native/onchain_evm/src/semantics_verification.rs:313-329 | parsing the encoding of any list of trees gives the trees back with nothing left over |
| `Rlp.EncodeParseAll` | packages/onchain_evm/native/onchain_evm/src/semantics_verification.rs:313-329 | whatever parses is the encoding of the trees it parses to, so no byte string has two readings |
| `Rlp.PrefixFree` | packages/onchain_evm/native/onchain_evm/src/semantics_verification.rs:313-329 | encodings of different trees are never prefixes of each other |
| `RlpWalk.PreflightRlp` | packages/onchain/native/onchain_abi/src/transaction.rs:70-87 | accepts exactly the canonical encodings of trees with list nesting of at most 64 and no more items than the budget, and spends exactly one unit an item |
| `RlpWalk.AcceptsEncoded` | packages/onchain/native/onchain_abi/src/transaction.rs:69-87 | on printed trees the verdict is decided by the depth and the size of the trees alone |
| `TempoEnvelope.SkipFields` | packages/onchain_tempo/native/onchain_tempo/src/lib.rs:43-47 | the cursor gets past eleven items exactly when eleven items are framed there, and stops behind them |
| `TempoEnvelope.FieldsOfEnvelope` | packages/onchain_tempo/native/onchain_tempo/src/lib.rs:38-47 | every envelope of eleven framed items and a tail is accepted and split into them |
| `TempoEnvelope.EnvelopeOfFields` | packages/onchain_tempo/native/onchain_tempo/src/lib.rs:38-47 | every accepted input is the envelope of the items it is split into |
| `TempoEnvelope.Normalize` | packages/onchain_tempo/native/onchain_tempo/src/lib.rs:34-53 | succeeds exactly on envelopes of at least eleven framed items; returns the same envelope with the patched tail, and the flag that says whether it was patched |
| `TempoEnvelope.PatchReplacesItem` | packages/onchain_tempo/native/onchain_tempo/src/lib.rs:48-53 | the twelfth item becomes the empty string exactly if it is the one-byte string zero; what follows it is unchanged |
| `TempoEnvelope.PatchedEnvelope` | packages/onchain_tempo/native/onchain_tempo/src/lib.rs:48-53 | the patched bytes are the envelope of the same items with only the twelfth replaced: item boundaries and count stay |
| `TempoEnvelope.PatchTouchesOneByte` | packages/onchain_tempo/native/onchain_tempo/src/lib.rs:49-53 | at most one byte differs, and it is the first byte of the twelfth item |
| `TempoEnvelope.PatchUndone` | packages/onchain_tempo/native/onchain_tempo/src/lib.rs:48-64 | putting the marker back from the returned flag restores the input |
| `TypeGraph.RootOfSplit` | packages/onchain/native/onchain_abi/src/transaction.rs:210 | the base name of a type is what stands before its first array suffix: cutting any suffix off a name without brackets gives the name |
| `TypeGraph.RootOnly` | packages/onchain/native/onchain_abi/src/transaction.rs:210 | a type has exactly one base name: a part at its front that has no open bracket and ends where the type ends or its first bracket stands |
| `TypeGraph.LassoStep` | packages/onchain/native/onchain_abi/src/transaction.rs:210-226 | a name that is not on the path closes a cycle with it exactly if some type it refers to does |
| `TypeGraph.LassoIsCycle` | packages/onchain/native/onchain_abi/src/transaction.rs:198-228 | from an empty path, closing a walk on itself is the same as a cycle that can be reached |
| `TypeGraph.CheckType` | packages/onchain/native/onchain_abi/src/transaction.rs:200-228 | on success the answer is whether the name closes a cycle with the path, and the path is restored; succeeds if and only if every name met on the way is within the limits on length, brackets and depth, every member met has a type, and the calls it takes are no more than the nodes left, of which it takes exactly those; the recursion ends on cyclic graphs too |
| `TypeGraph.IsRecursive` | packages/onchain/native/onchain_abi/src/transaction.rs:200-228 | on an initially empty path, a success answers true if and only if a cycle can be reached from the primary type's base name; succeeds exactly within the limits |
| `EncodeType.PushReferences` | packages/onchain/native/onchain_abi/src/transaction.rs:300-304 | pushes exactly the names that the struct refers to, the base names of its members' types, and fails exactly if a member has no type |
| `EncodeType.RecursiveEncodeType` | packages/onchain/native/onchain_abi/src/transaction.rs:292-317 | ends on every finite graph; succeeds if and only if the primary is a struct and every reachable name can be handled, with the text EIP-712 asks for: the primary definition, then every other reachable struct once, in name order |
| `EncodeType.PrintDefinitions` | packages/onchain/native/onchain_abi/src/transaction.rs:312-316 | prints the primary definition and then the others in name order, whatever the order they were met in |
| `EncodeType.EncodesTypeUnique` | packages/onchain/native/onchain_abi/src/transaction.rs:290-317 | at most one text is the encodeType of a struct: the result does not depend on the order of visits |
| `EncodeType.SortedNamesAscend` | packages/onchain/native/onchain_abi/src/transaction.rs:313-315 | the other definitions are in strictly ascending name order |
| `EncodeType.LessAtDifference` | packages/onchain/native/onchain_abi/src/transaction.rs:313-315 | a name is before another if and only if, after some characters in common, it has ended or goes on with a smaller one |
| `StructHash.TypeHash` | packages/onchain/native/onchain_abi/src/transaction.rs:340-347 | a struct has a type hash exactly if it has an encodeType, and no more than one |
| `StructHash.RecursiveDataWord` | packages/onchain/native/onchain_abi/src/transaction.rs:332-360 | with a valid cache, the memoised word is the cache-free one of EIP-712 (and fails exactly where that has none); the cache stays valid and only grows |
| `StructHash.RecursiveEncodeData` | packages/onchain/native/onchain_abi/src/transaction.rs:319-330 | the same for the members of a struct or of an array, one after another |
| `StructHash.EncodeDataLength` | packages/onchain/native/onchain_abi/src/transaction.rs:319-330 | encoded data is 32 bytes for each member |
| `CallTrace.LeaveCall` | packages/onchain/priv/specs/erigon-3578acb3a63d34ca746ff03c5350584c1a4eed0f/jsonrpc/trace_adhoc.go:489-541 | leaving a call whose children have been traced completes that call's own trace, and restores stack and address |
| `CallTrace.RunCall` | packages/onchain/priv/specs/erigon-3578acb3a63d34ca746ff03c5350584c1a4eed0f/jsonrpc/trace_adhoc.go:389-546 | fed the events of any call tree with precompiles as leaves, the tracer appends exactly the pre-order of the tree without skipped precompiles, counts the call at its parent, and returns both stacks and the precompile flag to where they were |
| `CallTrace.RunCalls` | packages/onchain/priv/specs/erigon-3578acb3a63d34ca746ff03c5350584c1a4eed0f/jsonrpc/trace_adhoc.go:410-414 | the same for any list of sibling calls: each gets its index among the traced ones |
| `CallTrace.RunTransaction` | packages/onchain/priv/specs/erigon-3578acb3a63d34ca746ff03c5350584c1a4eed0f/jsonrpc/trace_adhoc.go:389-546 | for a whole transaction the tracer starts and ends with empty stacks, and holds the traces and the output of the tree |
| `CallTrace.AddressIsPath` | packages/onchain/priv/specs/erigon-3578acb3a63d34ca746ff03c5350584c1a4eed0f/jsonrpc/trace_adhoc.go:412-428 | every trace address is a path of child indices, and the call at its end is the one whose trace it is, under the action of the call one step up |
| `CallTrace.AddressesDistinct` | packages/onchain/priv/specs/erigon-3578acb3a63d34ca746ff03c5350584c1a4eed0f/jsonrpc/trace_adhoc.go:412-428 | no two traces of a transaction have the same address |
| `TraceContent.TraceShowsCall` | packages/onchain/priv/specs/erigon-3578acb3a63d34ca746ff03c5350584c1a4eed0f/jsonrpc/trace_adhoc.go:389-546 | every field of a trace is the one told on entering and leaving the call its address leads to: kind, caller, callee, input, gas up to 500000000, created address, output, gas used, error, the number of children with a trace, and the value, which is the caller's for a delegated call and 0 for a static one |
| `TraceContent.PathIsTraced` | packages/onchain/priv/specs/erigon-3578acb3a63d34ca746ff03c5350584c1a4eed0f/jsonrpc/trace_adhoc.go:410-428 | every call that a path leads to has a trace with that path for its address |
| `TraceContent.TracedChildAt` | packages/onchain/priv/specs/erigon-3578acb3a63d34ca746ff03c5350584c1a4eed0f/jsonrpc/trace_adhoc.go:384-422 | a child with a trace has as its index the number of siblings before it that have one |
| `TraceContent.EnterShows` | packages/onchain/priv/specs/erigon-3578acb3a63d34ca746ff03c5350584c1a4eed0f/jsonrpc/trace_adhoc.go:389-471 | entering a call that gets a trace opens one that shows kind, caller, callee, input, gas and value of the call |
| `OeTracer.ParityTrace.Close` | packages/onchain/priv/specs/erigon-3578acb3a63d34ca746ff03c5350584c1a4eed0f/jsonrpc/trace_adhoc.go:498-537 | completing a trace in place sets its result or its error as the specification says, and nothing else |
| `OeTracer.Tracer.OnEnter` | packages/onchain/priv/specs/erigon-3578acb3a63d34ca746ff03c5350584c1a4eed0f/jsonrpc/trace_adhoc.go:389-471 | on the tracer's own objects an enter event is exactly the step of the state machine, and opens, unless the call is to a skipped precompile, one trace with the caller, callee, input, gas and value it was told |
| `OeTracer.Tracer.OnExit` | packages/onchain/priv/specs/erigon-3578acb3a63d34ca746ff03c5350584c1a4eed0f/jsonrpc/trace_adhoc.go:473-546 | on the tracer's own objects an exit event is exactly the step of the state machine, through the trace that the two lists share |
| `OeTracer.Tracer.Push` | packages/onchain/priv/specs/erigon-3578acb3a63d34ca746ff03c5350584c1a4eed0f/jsonrpc/trace_adhoc.go:464-465 | a new trace is appended to the traces and to the open ones, as one object |
| `OeTracer.Tracer.CountChild` | packages/onchain/priv/specs/erigon-3578acb3a63d34ca746ff03c5350584c1a4eed0f/jsonrpc/trace_adhoc.go:411-422 | the innermost open trace gets one more child, and the address goes one level down with the index before |
| `OeTracer.Tracer.CloseTop` | packages/onchain/priv/specs/erigon-3578acb3a63d34ca746ff03c5350584c1a4eed0f/jsonrpc/trace_adhoc.go:499-538 | the innermost open trace, and no other, is completed and taken off the stack |
| `OeTracer.Tracer.Feed` | packages/onchain/priv/specs/erigon-3578acb3a63d34ca746ff03c5350584c1a4eed0f/jsonrpc/trace_adhoc.go:468-546 | a sequence of events takes the tracer through the run of the state machine |
| `OeTracer.TraceTransaction` | packages/onchain/priv/specs/erigon-3578acb3a63d34ca746ff03c5350584c1a4eed0f/jsonrpc/trace_adhoc.go:389-546 | a new tracer that is fed a transaction holds the pre-order traces of its call tree, with both stacks empty; every trace shows in every field the call that its address leads to, and every call with a path has one |
| `MaxHeap.Heap.Push` | packages/onchain/priv/specs/erigon-3578acb3a63d34ca746ff03c5350584c1a4eed0f/jsonrpc/storage_range.go:53-65 | pushing keeps the heap order and adds exactly the entry |
| `MaxHeap.Heap.Pop` | packages/onchain/priv/specs/erigon-3578acb3a63d34ca746ff03c5350584c1a4eed0f/jsonrpc/storage_range.go:67-73 | popping keeps the heap order and removes one entry, with the largest hashed key |
| `SortedEntries.LowPartFirst` | packages/onchain/priv/specs/erigon-3578acb3a63d34ca746ff03c5350584c1a4eed0f/jsonrpc/storage_range.go:194-198 | if everything kept is below everything dropped, the sorted kept entries begin the sorted whole |
| `SortedEntries.NextPage` | packages/onchain/priv/specs/erigon-3578acb3a63d34ca746ff03c5350584c1a4eed0f/jsonrpc/storage_range.go:200-208 | starting again at the next key continues right after the page |
| `SortedEntries.PagesCover` | packages/onchain/priv/specs/erigon-3578acb3a63d34ca746ff03c5350584c1a4eed0f/jsonrpc/storage_range.go:200-208 | with a positive page size, the pages from any start hold every entry from there on once and in order, and following the next keys ends |
| `StorageRange.StorageRangeAtGethCompat` | packages/onchain/priv/specs/erigon-3578acb3a63d34ca746ff03c5350584c1a4eed0f/jsonrpc/storage_range.go:131-211 | for an injective hash the streaming bounded heap returns the page of the full sort; said of the slots alone: a live slot from the start on is in the map, with its key and the number of its last 32 bytes, if and only if fewer than the limit of live slots have a smaller hashed key, nothing else is, and the next key is that of the slot with exactly as many |
| `StorageRange.FillResult` | packages/onchain/priv/specs/erigon-3578acb3a63d34ca746ff03c5350584c1a4eed0f/jsonrpc/storage_range.go:200-210 | the result map holds the entries up to the limit, and the next key is that of the entry after them, if any |
| `StorageRange.StorageRangeAtErigon` | packages/onchain/priv/specs/erigon-3578acb3a63d34ca746ff03c5350584c1a4eed0f/jsonrpc/storage_range.go:84-126 | in raw order the two loops return the first live entries from the start on, up to the limit, and the next live key; for ascending keys and an injective hash, the same is said of the slots alone |
| `StorageRange.CollectPage` | packages/onchain/priv/specs/erigon-3578acb3a63d34ca746ff03c5350584c1a4eed0f/jsonrpc/storage_range.go:95-111 | the first loop stops when the map holds as many entries as asked for or the rows are used up |
| `StorageRange.FindNext` | packages/onchain/priv/specs/erigon-3578acb3a63d34ca746ff03c5350584c1a4eed0f/jsonrpc/storage_range.go:113-124 | the second loop finds the first live row, if there is one |
| `StorageSlots.PageShowsSlots` | packages/onchain/priv/specs/erigon-3578acb3a63d34ca746ff03c5350584c1a4eed0f/jsonrpc/storage_range.go:103-124 | a page of the entries in rank order, stored by hash, holds the slots with fewer than the limit of ranks below theirs, each with its own key and value, and names the next |
| `StorageRange.EligibleIsSuffix` | packages/onchain/priv/specs/erigon-3578acb3a63d34ca746ff03c5350584c1a4eed0f/jsonrpc/storage_range.go:172-175 | in hashed order, the eligible entries of a start are the sorted live entries from there on |
| `StorageRange.RangeIsSuffix` | packages/onchain/priv/specs/erigon-3578acb3a63d34ca746ff03c5350584c1a4eed0f/jsonrpc/storage_range.go:87-93 | in raw order, the range of a start holds exactly the live entries from there on |
| `StorageRange.GethPagesCover` | packages/onchain/priv/specs/erigon-3578acb3a63d34ca746ff03c5350584c1a4eed0f/jsonrpc/storage_range.go:131-211 | the pages of the sorted live entries, each begun at the next key of the one before, hold every live entry exactly once |
| `StoragePaging.AllPagesGethCompat` | packages/onchain/priv/specs/erigon-3578acb3a63d34ca746ff03c5350584c1a4eed0f/jsonrpc/storage_range.go:131-211 | asking again from the next key until there is none ends, and the results hold every live entry exactly once, in the order of hashed keys, no more than asked for each |
| `StorageRange.ErigonPagesCover` | packages/onchain/priv/specs/erigon-3578acb3a63d34ca746ff03c5350584c1a4eed0f/jsonrpc/storage_range.go:84-126 | the pages of the live entries in raw order, each begun at the next key of the one before, hold every live entry exactly once |
| `StoragePaging.AllPagesErigon` | packages/onchain/priv/specs/erigon-3578acb3a63d34ca746ff03c5350584c1a4eed0f/jsonrpc/storage_range.go:84-126 | asking again from the next key until there is none ends, and the results hold every live entry exactly once, in the order of the database, no more than asked for each |
| `GasEstimate.MidBetween` | packages/onchain/priv/specs/erigon-3578acb3a63d34ca746ff03c5350584c1a4eed0f/jsonrpc/eth_call.go:355-359 | the probe is strictly inside the interval if and only if the lower end is not zero and the sum of both ends is below 2^64; from zero it never moves, and past 2^64 it falls below the interval |
| `GasEstimate.MidWraps` | packages/onchain/priv/specs/erigon-3578acb3a63d34ca746ff03c5350584c1a4eed0f/jsonrpc/eth_call.go:355 | after a call that used 21001 units of gas, under the largest limit there is, the probe is 10499 |
| `GasEstimate.MidIsHalf` | packages/onchain/priv/specs/erigon-3578acb3a63d34ca746ff03c5350584c1a4eed0f/jsonrpc/eth_call.go:355-359 | where the sum of the ends fits 64 bits the probe is half of it, rounded down, or twice the lower end if that is less |
| `GasEstimate.OptimisticAbove` | packages/onchain/priv/specs/erigon-3578acb3a63d34ca746ff03c5350584c1a4eed0f/jsonrpc/eth_call.go:337 | the suggested upper end is above the gas used exactly up to a bound, beyond which the product has wrapped around |
| `GasEstimate.OptimisticRatio` | packages/onchain/priv/specs/erigon-3578acb3a63d34ca746ff03c5350584c1a4eed0f/jsonrpc/eth_call.go:337 | up to that bound the suggested upper end is 64/63 of the gas used and the stipend of 2300 together, rounded down |
| `GasEstimate.CapLimit` | packages/onchain/priv/specs/erigon-3578acb3a63d34ca746ff03c5350584c1a4eed0f/jsonrpc/eth_call.go:220-281 | the highest limit is the least of the asked or block limit, the fork's cap, the affordable gas and the node's cap; only a transfer that the sender cannot fund fails |
| `GasEstimate.HighestPermitted` | packages/onchain/priv/specs/erigon-3578acb3a63d34ca746ff03c5350584c1a4eed0f/jsonrpc/eth_call.go:220-281 | the highest limit is the greatest that is at most the asked gas, or the block's if less than 21000 was asked, at most 16777216 under Osaka without Amsterdam, payable at the fee cap beside the value sent, and at most the node's cap |
| `GasEstimate.HighestLimitPayable` | packages/onchain/priv/specs/erigon-3578acb3a63d34ca746ff03c5350584c1a4eed0f/jsonrpc/eth_call.go:244-275 | the sender can pay for the highest limit at the fee cap |
| `GasEstimate.RoomyIsExact` | packages/onchain/priv/specs/erigon-3578acb3a63d34ca746ff03c5350584c1a4eed0f/jsonrpc/eth_call.go:351-372 | the probes stay inside the interval from every lower end, whatever the call does, if and only if 397 times the upper end is below 200 times 2^64 |
| `GasEstimate.Search` | packages/onchain/priv/specs/erigon-3578acb3a63d34ca746ff03c5350584c1a4eed0f/jsonrpc/eth_call.go:350-373 | for every interval that no probe leaves it ends, returns only a limit that was executed with success, and, if success is monotone and the lower end fails, one that is minimal or within 1.5 percent of every smaller success |
| `GasEstimate.SafeEstimate` | packages/onchain/priv/specs/erigon-3578acb3a63d34ca746ff03c5350584c1a4eed0f/jsonrpc/eth_call.go:327-348 | up to the bound of the suggested upper end, no probe leaves the interval if the call is charged at least two units and no more than its limit |
| `GasEstimate.EstimateGas` | packages/onchain/priv/specs/erigon-3578acb3a63d34ca746ff03c5350584c1a4eed0f/jsonrpc/eth_call.go:212-374 | whenever no probe leaves its interval: returns only a limit at which the call was executed and succeeded, which the request, the fork, the sender's balance and the node permit, and near-minimal if success is monotone and no limit below the gas charged succeeds; fails for lack of funds exactly if the transfer cannot be funded, and otherwise for the reason of the execution at the highest limit, or because some execution is refused outright |
| `ModifiedAccounts.GetModifiedAccounts` | packages/onchain/priv/specs/erigon-3578acb3a63d34ca746ff03c5350584c1a4eed0f/jsonrpc/debug_api.go:390-483 | without duplicates, exactly the addresses with a changed record that still exists, and those with a changed slot whose record was not deleted |
| `ModifiedAccounts.AccountPass` | packages/onchain/priv/specs/erigon-3578acb3a63d34ca746ff03c5350584c1a4eed0f/jsonrpc/debug_api.go:403-436 | the first pass finds exactly the changed records that exist at the end, and remembers exactly the deleted ones |
| `ModifiedAccounts.PassesFindModified` | packages/onchain/priv/specs/erigon-3578acb3a63d34ca746ff03c5350584c1a4eed0f/jsonrpc/debug_api.go:385-483 | if history lists every written key with its value before the range and absent accounts have no storage, the two passes report exactly the accounts that exist at the end and whose record or some slot differs |
| `ModifiedAccounts.ReportedIsModified` | packages/onchain/priv/specs/erigon-3578acb3a63d34ca746ff03c5350584c1a4eed0f/jsonrpc/debug_api.go:385-483 | with faithful histories the answer for an address is right if and only if it is not absent at both ends with a changed slot |
| `ModifiedAccounts.OrphanReported` | packages/onchain/priv/specs/erigon-3578acb3a63d34ca746ff03c5350584c1a4eed0f/jsonrpc/debug_api.go:448-451 | such an address is reported |
| `SimulatedChain.SanitizeSimulatedBlocks` | packages/onchain/priv/specs/erigon-3578acb3a63d34ca746ff03c5350584c1a4eed0f/jsonrpc/eth_simulation.go:263-316 | the loops compute the completed chain, or the first of the three errors |
| `SimulatedChain.SanitizedAccepts` | packages/onchain/priv/specs/erigon-3578acb3a63d34ca746ff03c5350584c1a4eed0f/jsonrpc/eth_simulation.go:263-316 | a request is accepted if and only if every block's number is above the one before and at most 256 above the base, and every given time is after twelve seconds for each block of the gap; otherwise the error is that of the first block at fault |
| `SimulatedChain.CompleteBlock` | packages/onchain/priv/specs/erigon-3578acb3a63d34ca746ff03c5350584c1a4eed0f/jsonrpc/eth_simulation.go:268-313 | one input block is completed with its gap, or refused, and the number goes up |
| `SimulatedChain.FillGap` | packages/onchain/priv/specs/erigon-3578acb3a63d34ca746ff03c5350584c1a4eed0f/jsonrpc/eth_simulation.go:285-298 | the gap is filled with empty blocks at the default interval |
| `SimulatedChain.SanitizedNumbers` | packages/onchain/priv/specs/erigon-3578acb3a63d34ca746ff03c5350584c1a4eed0f/jsonrpc/eth_simulation.go:275-299 | output numbers are exactly base + 1, base + 2 and so on without a gap, and at most 256 |
| `SimulatedChain.SanitizedTimes` | packages/onchain/priv/specs/erigon-3578acb3a63d34ca746ff03c5350584c1a4eed0f/jsonrpc/eth_simulation.go:285-312 | times strictly increase from the base if and only if no default time wraps around |
| `SimulatedChain.RoomSuffices` | packages/onchain/priv/specs/erigon-3578acb3a63d34ca746ff03c5350584c1a4eed0f/jsonrpc/eth_simulation.go:279-305 | no default time wraps around if the base time and every given time leave room for the longest chain |
| `SimulatedChain.WrappedTime` | packages/onchain/priv/specs/erigon-3578acb3a63d34ca746ff03c5350584c1a4eed0f/jsonrpc/eth_simulation.go:303-305 | a default time after the last 64-bit second is accepted as a small number, so that times go backwards |
| `SimulatedChain.SanitizedEmbeds` | packages/onchain/priv/specs/erigon-3578acb3a63d34ca746ff03c5350584c1a4eed0f/jsonrpc/eth_simulation.go:267-313 | the input blocks come through in order with the fields they set, and only empty blocks are added |
| `WitnessOverlays.RecordingState.ReadAccountData` | packages/onchain/priv/specs/erigon-3578acb3a63d34ca746ff03c5350584c1a4eed0f/jsonrpc/debug_execution_witness.go:127-152 | reads the overlay's account, none if deleted, or else the base |
| `WitnessOverlays.RecordingState.ReadAccountStorage` | packages/onchain/priv/specs/erigon-3578acb3a63d34ca746ff03c5350584c1a4eed0f/jsonrpc/debug_execution_witness.go:180-209 | reads a written slot from the overlay, and any other from the base unless the account is deleted |
| `WitnessOverlays.RecordingState.HasStorage` | packages/onchain/priv/specs/erigon-3578acb3a63d34ca746ff03c5350584c1a4eed0f/jsonrpc/debug_execution_witness.go:211-236 | true for a non-zero slot in the overlay, and otherwise as the base says unless the account is deleted |
| `WitnessOverlays.RecordingState.UpdateAccountData` | packages/onchain/priv/specs/erigon-3578acb3a63d34ca746ff03c5350584c1a4eed0f/jsonrpc/debug_execution_witness.go:325-339 | the account then reads as written, and no answer about another account changes |
| `WitnessOverlays.RecordingState.UpdateAccountCode` | packages/onchain/priv/specs/erigon-3578acb3a63d34ca746ff03c5350584c1a4eed0f/jsonrpc/debug_execution_witness.go:341-358 | an account of the overlay then reads with the new code hash, and no other answer about accounts changes |
| `WitnessOverlays.RecordingState.WriteAccountStorage` | packages/onchain/priv/specs/erigon-3578acb3a63d34ca746ff03c5350584c1a4eed0f/jsonrpc/debug_execution_witness.go:374-390 | unless the account is deleted the slot then reads as written; no other slot, no account record and no answer about another account changes |
| `WitnessOverlays.RecordingState.CreateContract` | packages/onchain/priv/specs/erigon-3578acb3a63d34ca746ff03c5350584c1a4eed0f/jsonrpc/debug_execution_witness.go:392-401 | the account then reads from the overlay or else from the base, and no answer about another account changes |
| `WitnessOverlays.RecordingState.DeleteAccount` | packages/onchain/priv/specs/erigon-3578acb3a63d34ca746ff03c5350584c1a4eed0f/jsonrpc/debug_execution_witness.go:360-372 | the account and all its slots then read as absent, and no answer about another account changes |
| `WitnessOverlays.WitnessStateless.ReadAccountData` | packages/onchain/priv/specs/erigon-3578acb3a63d34ca746ff03c5350584c1a4eed0f/jsonrpc/debug_execution_witness.go:1459-1499 | reads an updated account, none if deleted, or else the trie |
| `WitnessOverlays.WitnessStateless.ReadAccountStorage` | packages/onchain/priv/specs/erigon-3578acb3a63d34ca746ff03c5350584c1a4eed0f/jsonrpc/debug_execution_witness.go:1501-1550 | reads a write, zero for a deleted slot, or else the trie |
| `WitnessOverlays.WitnessStateless.HasStorage` | packages/onchain/priv/specs/erigon-3578acb3a63d34ca746ff03c5350584c1a4eed0f/jsonrpc/debug_execution_witness.go:1619-1658 | false if deleted, and otherwise true for a non-zero write or a storage root in the trie |
| `WitnessOverlays.WitnessStateless.UpdateAccountData` | packages/onchain/priv/specs/erigon-3578acb3a63d34ca746ff03c5350584c1a4eed0f/jsonrpc/debug_execution_witness.go:1662-1679 | the account then reads as written, no answer about another account changes, and the slot maps stay clean |
| `WitnessOverlays.WitnessStateless.UpdateAccountCode` | packages/onchain/priv/specs/erigon-3578acb3a63d34ca746ff03c5350584c1a4eed0f/jsonrpc/debug_execution_witness.go:1705-1717 | an updated account then reads with the new code hash, no other answer about accounts changes, and the slot maps stay clean |
| `WitnessOverlays.WitnessStateless.WriteAccountStorage` | packages/onchain/priv/specs/erigon-3578acb3a63d34ca746ff03c5350584c1a4eed0f/jsonrpc/debug_execution_witness.go:1719-1757 | the slot then reads as written; no other slot, no account record and no answer about another account changes; writes stay non-zero and apart from deletes |
| `WitnessOverlays.WitnessStateless.CreateContract` | packages/onchain/priv/specs/erigon-3578acb3a63d34ca746ff03c5350584c1a4eed0f/jsonrpc/debug_execution_witness.go:1759-1767 | the account then reads from the updates or else from the trie, its slots as before, and no answer about another account changes |
| `WitnessOverlays.WitnessStateless.DeleteAccount` | packages/onchain/priv/specs/erigon-3578acb3a63d34ca746ff03c5350584c1a4eed0f/jsonrpc/debug_execution_witness.go:1681-1703 | the account then reads as absent, its slots as before, and no answer about another account changes |
| `WitnessOverlays.Replay` | packages/onchain/priv/specs/erigon-3578acb3a63d34ca746ff03c5350584c1a4eed0f/jsonrpc/debug_execution_witness.go:325-401 | two new overlays that take the same sequence of writes end in the states of the two runs |
| `WitnessOverlays.AlwaysClean` | packages/onchain/priv/specs/erigon-3578acb3a63d34ca746ff03c5350584c1a4eed0f/jsonrpc/debug_execution_witness.go:1662-1767 | after any run of writes, deletions included, no stored write is zero and no slot is both written and deleted |
| `WitnessOverlays.RecordingReads` | packages/onchain/priv/specs/erigon-3578acb3a63d34ca746ff03c5350584c1a4eed0f/jsonrpc/debug_execution_witness.go:127-401 | after any run, every read of the recording about an account that was not deleted is answered by the last write, and by the base if there was none |
| `WitnessOverlays.WitnessReads` | packages/onchain/priv/specs/erigon-3578acb3a63d34ca746ff03c5350584c1a4eed0f/jsonrpc/debug_execution_witness.go:1459-1767 | after any run, every read of the witness overlay about an account that was not deleted is answered by the last write, and by the trie if there was none |
| `WitnessOverlays.SameAnswers` | packages/onchain/priv/specs/erigon-3578acb3a63d34ca746ff03c5350584c1a4eed0f/jsonrpc/debug_execution_witness.go:127-236 | over agreeing bases, after any run, both overlays answer all three reads alike about every account that was not deleted |
| `WitnessOverlays.LaterWrites` | packages/onchain/priv/specs/erigon-3578acb3a63d34ca746ff03c5350584c1a4eed0f/jsonrpc/debug_execution_witness.go:325-401 | what happens to other accounts changes no answer of either overlay |
| `WitnessOverlays.DeletionParts` | packages/onchain/priv/specs/erigon-3578acb3a63d34ca746ff03c5350584c1a4eed0f/jsonrpc/debug_execution_witness.go:1681-1703 | after a deletion, whatever then happens to others, both answer alike for the account; for a slot they agree exactly where there was nothing to read; for HasStorage, unless the deletion is skipped after a write that is not zero |
| `WitnessOverlays.RecreationParts` | packages/onchain/priv/specs/erigon-3578acb3a63d34ca746ff03c5350584c1a4eed0f/jsonrpc/debug_execution_witness.go:392-401 | creating a deleted account again brings its base record back in the recording only: they agree exactly if there was none |
| `ArraySuffix.Split` | packages/onchain_evm/native/onchain_solidity/src/lib.rs:1188-1214 | base and suffix concatenate to the type, and the base does not end in a bracket group |
| `ArraySuffix.SplitArraySuffix` | packages/onchain_evm/native/onchain_solidity/src/lib.rs:1188-1214 | the loop ends, computes the split, and fails exactly if the base has an open bracket and a last character that the slice cannot cut |
| `ArraySuffix.SplitIsUnique` | packages/onchain_evm/native/onchain_solidity/src/lib.rs:1188-1214 | the split is the only way to write the type as a base that ends in no group and a run of groups |
| `ArraySuffix.SuffixIsGroups` | packages/onchain_evm/native/onchain_solidity/src/lib.rs:1188-1214 | the suffix is a run of bracket groups |
| `SolTypes.DepthIrrelevant` | packages/onchain_evm/native/onchain_solidity/src/lib.rs:1112-1139 | text does not depend on the depth at which a type is met as long as its expansion ends within the limit |
| `SolTypes.PlainText` | packages/onchain_evm/native/onchain_solidity/src/lib.rs:1108-1139 | the text of a type that is no struct is address for a contract, uint8 for an enum that is known by its own name or under the owner's, and otherwise the type itself, each with the suffix |
| `SolTypes.StructText` | packages/onchain_evm/native/onchain_solidity/src/lib.rs:1119-1130 | the text of a struct is the texts of its members, each from the struct's own contract, joined between parentheses, and the suffix |
| `SolTypes.JoinNext` | packages/onchain_evm/native/onchain_solidity/src/lib.rs:1125-1130 | parts are joined with one comma between each and the next |
| `SolTypes.OwnerOfQualified` | packages/onchain_evm/native/onchain_solidity/src/lib.rs:582-596 | the owner taken from a qualified name is the one it was qualified with, and a name without a dot has none |
| `SolTypes.AlikeEverywhere` | packages/onchain_evm/native/onchain_solidity/src/lib.rs:599-622 | if all names resolve alike, so do the names met in the expansion of any type |
| `SolTypes.TreeCompares` | packages/onchain_evm/native/onchain_solidity/src/lib.rs:1142-1168 | for every type whose component tree ends, whatever the names mean to others, the tree renders as the text with every name looked up from the caller, but for three more characters for each struct without members; they are the same if and only if there is none |
| `SolTypes.TextFromCaller` | packages/onchain_evm/native/onchain_solidity/src/lib.rs:1112-1139 | where the names met resolve alike and the expansion ends within the limit, the canonical text is the one with every name looked up from the caller |
| `SolTypes.OwnersCompare` | packages/onchain_evm/native/onchain_solidity/src/lib.rs:1119-1153 | without empty structs, the component tree renders as the canonical text if and only if looking every name up from the caller gives that text too |
| `SolTypes.CanonicalAgrees` | packages/onchain_evm/native/onchain_solidity/src/lib.rs:1108-1168 | for a type whose expansion ends within the limit and meets only names that resolve alike, the component tree exists and renders as the text if and only if no struct in it lacks members |
| `SolTypes.ReturnTypesAgree` | packages/onchain/native/onchain_abi/src/contract.rs:196-221 | the return type rebuilt from the component trees of the outputs is the one in the signature |
| `SolTypes.SelfReference` | packages/onchain_evm/native/onchain_solidity/src/lib.rs:1100-1117 | for a struct with itself, or an array of itself, as its one member, text is the type inside one pair of parentheses for each level left |
| `SolCycles.UnfoldsUnlessChain` | packages/onchain_evm/native/onchain_solidity/src/lib.rs:1142-1153 | a number of levels is too few for the component tree if and only if there is a chain of one struct more |
| `SolCycles.TreeEnds` | packages/onchain_evm/native/onchain_solidity/src/lib.rs:1142-1168 | the component tree of a type ends at some level if and only if no cycle of structs can be reached from it |
| `SolCycles.OwnMember` | packages/onchain_evm/native/onchain_solidity/src/lib.rs:1142-1153 | if any member of a struct is of its own type, or an array of it, no bound on nesting lets the component tree end |
| `SolRegistry.CountNames` | packages/onchain_evm/native/onchain_solidity/src/lib.rs:513-526 | a name is counted once exactly if no other declaration has it |
| `SolRegistry.FinalizeTypeRegistry` | packages/onchain_evm/native/onchain_solidity/src/lib.rs:508-580 | a name is in the struct table exactly if it is canonical, for its last declaration, or else the short name of one struct only; and the same for enum names |
| `SolRegistry.StructsResolveAlike` | packages/onchain_evm/native/onchain_solidity/src/lib.rs:599-611 | struct names mean the same to every contract if and only if no two structs share a short name |
| `SolRegistry.EnumsResolveAlike` | packages/onchain_evm/native/onchain_solidity/src/lib.rs:614-622 | enum names mean the same to every contract if and only if each is declared once or also at file level |
| `SolRegistry.DistinctNamesAgree` | packages/onchain_evm/native/onchain_solidity/src/lib.rs:508-622 | for a source without repeated names, text and component tree agree on every type that settles, exactly if no struct in it lacks members |
| `SolRegistry.OwnersPart` | packages/onchain_evm/native/onchain_solidity/src/lib.rs:1119-1153 | for structs of one member: if its type name is another struct to the caller than to the declaring contract, text and component tree show the members of different structs |
| `SolRegistry.SharedNameBuilt` | packages/onchain_evm/native/onchain_solidity/src/lib.rs:508-580 | the registry of the next row is the one that is built for its declarations |
| `SolRegistry.RepeatedNamesDisagree` | packages/onchain_evm/native/onchain_solidity/src/lib.rs:1119-1153 | contracts A and B with a T each, and A.S with a member T: seen from B, text says ((uint256)) and the component tree ((bool)) |

## Left out

- AbiDecode.DecodeCompatible: takes `|data| + 32 * budget` below 2^64, as any buffer in memory has; alloy's decoder on types without zero-width aggregates is the reference decoder, with an arbitrary leaf decoder as a parameter, and the padding of byte strings is not examined.
- AbiPreflight.Preflight: a schema must have passed the schema size check, and the budget is at most the constant the callers use; its loops are methods of their own.
- AbiReference.IsDynamic: an array of no elements is static, whatever its element type, as the repository has it (packages/onchain/test/abi/function_selector_test.exs:268-283, and the round trip of `string[0]` in packages/onchain/test/abi_regression_test.exs:39-45); by the letter of the Solidity Contract ABI Specification it is as dynamic as its element type. What alloy's own test says of such types is not shown, and everything about them rests on it. `SpecAgrees` and `NoValueTest` say where the two differ; on types without such arrays they are the same.
- AbiRaw.ChunkRoundTrip: values have fewer than 2^64 nodes, as any value in memory has.
- AbiTerms.FromTerm: terms are booleans, integers, binaries, tuples and list cells; every other term is one case; a custom struct type is not part of the types.
- Packed encoding, events, profiling, the small-schema scheduler test and the dispatch of operation names: each is read off one branch.
- RlpWalk.PreflightRlp: the header decoder of alloy is the canonical reader of `Rlp`.
- TempoEnvelope.Normalize: ends where the envelope goes to its own decoder, which is not part of this model.
- TypeGraph.CheckType: lengths of names are counted in characters, not bytes.
- EncodeType.RecursiveEncodeType: how one definition is printed, and which names that are no struct resolve, are parameters; a definition fails as a whole, whichever step of alloy refuses it.
- StructHash.RecursiveDataWord: Keccak and the word of a leaf value are parameters; `EncodeDataLength` assumes that both give 32 bytes.
- JSON coercion along recursive types, and the node and byte budget of the consensus term codec: term plumbing around the walks above.
- CallTrace.RunCall: precompiles make no calls of their own, as in the machine; opcode traces (vmTrace), state diffs and block replay are not modelled, and addresses are numbers.
- MaxHeap.Heap.Push: the heap operations and the sort of the Go library are modelled by a binary heap in a sequence and by an insertion sort.
- StorageRange.StorageRangeAtGethCompat: states the page when the hash is injective on the eligible keys; the database range is an argument, 32-byte keys are numbers, and database errors are left out.
- StorageRange.StorageRangeAtErigon: what it says of the slots alone asks for ascending keys and an injective hash, as the database yields them.
- GasEstimate.EstimateGas: the tolerance is compared over the reals, without floating-point rounding; runs in which a probe leaves its interval are excluded, as they need not end, and with them a call that is charged nothing, whose lower end is the largest number there is (`RoomyIsExact` and `SafeEstimate` say when there is none); setting up the block and the state is not modelled.
- ModifiedAccounts.GetModifiedAccounts: the two history ranges and the reads at the end are arguments; database errors are left out.
- SimulatedChain.SanitizeSimulatedBlocks: a block is its two overrides and its calls; errors carry no text.
- WitnessOverlays.RecordingState.UpdateAccountData: the sets that only record what was touched, contract code, incarnations, tracing and a missing account (which the recording does not survive) are left out; accounts are values, so a record changed through a returned pointer is not captured.
- WitnessOverlays.WitnessStateless.ReadAccountStorage: the trie is a pair of lookups by address and slot, without hashing; finalizing it is not modelled.
- SolTypes.CanonicalAgrees: asks that the names met resolve alike; where they do not, renderings that coincide by chance are not ruled out.
- SolRegistry.OwnersPart: shows both texts for structs with one member; `TreeCompares` and `OwnersCompare` are about all.
- SolTypes.TreeCompares: types whose split fails are excluded, in the type itself and in the registry; the component tree takes a bound on nesting as a ghost argument, because without one the recursion need not end.
- SolRegistry.FinalizeTypeRegistry: the lists of declarations that are passed through, and enum variants, are left out.
- Parsing Solidity, documentation comments and term maps; foreign-call entry points and error recovery; network, database and signature code: not part of this model.
