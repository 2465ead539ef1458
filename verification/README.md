# Verified model of the Convex Wasm runtime and compiler core

A Dafny 4.11 model of the parts of the repository with the most state, branching and recursion, and proofs of
what they promise. `dafny verify dfyconfig.toml` checks all of it.

## What is modelled

**Value frames (CVA1).** `Bytes` has the bounded output buffer, `Utf8` the streaming conversion of engine strings,
`ValueTree` the plain encoding of a tree, `JsValues` what an object graph unfolds to,
`Acceptance` when it does and how the result reads, and `Denotation`, independently of both, which tree a value is.
`ValueWriter` is the writer:
one growing buffer, back-patched lengths, sorted keys and a borrowed stack of ancestors. `ValueGrammar` reads a frame
in one pass and, separately, only skips; `ValuePasses` shows that the two agree, and `ValueInverse` that decoding undoes
encoding. `ValueDocuments` has the packed documents and collections that only a host writes. `ValueReader` is the reader
that indexes objects by skipping and jumps back. `ValueCodec` puts it all together.

**Query frames (CQR1).** `QuerySpec` has the recursive encoding with its limits, and what prebuilt records are.
`QueryWriter` is the writer that splices records. `QueryDecoding` reads a frame back and shows that nothing of a query is
lost in it; `QueryLimits` says exactly which queries are accepted.

**Chunk runtime.** `LifecycleSpec` has the states and what makes them sound, `Lifecycle` the state machine: cyclic
loading of chunk units, provisional publication, the dirty flag, the cached validation, retirement and the memory
boundary. Guest code is an arbitrary script of steps that may re-enter the loader, throw, or swallow errors; what engine
and host decide is an arbitrary sequence of answers. `ErrorFree` says what loading comes to if nothing goes wrong, and
`ModuleGraph` that well-behaved chunks always load, whatever cycles their imports make.

**Value flow.** `Provenance` has origins, steps and sinks. `ValueExpr`, `ValueEnds` and `ValueCollector` follow a value
back through aliases, choices and `Promise.all`, and check the chains found; `ValueFlows` is the relation whose paths
those are. `CallCycles`, `RouteSpec` and `Routes` compose them across calls in a bounded fixpoint, and `RouteLinks` says
which calls link them. `Rootedness` and `MustReach` are the two searches that cut cycles, over the
theory in `Grounding`; `MustReach` also has the control skeletons.

**Static operands.** `Operands` resolves which strings reach a parameter, with a cache; `Specialize` emits the effects,
and `ActualRuns` relates them to runs of the program.

**Allocator, ICU tracker, census, ownership, number parts, edits.** `SizeT`, `Pages`, `FreeChunks` and `Allocator`;
`IcuTracker`; `CensusSpec` and `Census`; `Ownership` and `Aliases`; `NumberParts`; `Edits`. `Ordering` is sorting.

Code that works in place is modelled by classes and methods with loops, each proved against a function or predicate;
what the source promises is proved about those.

## Where the code and its promises differ

- A string whose surrogate pair is split by an *empty* ASCII chunk is refused although it is well formed
  (`Utf8.EmptyChunkInterrupts`); `Utf8.StreamedIffUninterrupted` has the exact condition, and
  `Utf8.StreamedIgnoresChunking` the case without empty chunks.
- Whether the arguments of a call are safe is tested only on the call of the effect itself. A spread argument of a call
  further back shifts what stands behind it, and an actual operand can be missing from what is emitted
  (`ActualRuns.ShiftedOperandIsMissing`); `ActualRuns.SoundIffFlowIsSafe` has the exact condition.
- Following a value does not note array constants that are passed to `Promise.all`, so one that waits for itself is
  followed for ever (`ValueEnds.SelfWaitingNeverEnds`); `ValueEnds.EndsIffNoLoop` says exactly when it ends.
  `ValueEnds.RankedEnds` and `ValueEnds.FirstCircleNeverEnds` are conditions on the declarations alone, one each way.
- An empty stretch of source where two callables of one size meet has an ambiguous owner
  (`Ownership.EmptyStretchCanClash`); `Ownership.ClashesInSomeOrder` has the exact condition.
- The allocator reports a partial result also when a bound is reached by the very last chunk; so a partial result
  says nothing about whether more is there, as its header states.

## Model

| member | source | states |
|---|---|---|
| `Utf8.AppendHermesUtf8` | scripts/lib/convex-wasm-native-capability-runtime-main.cpp:397-455 | streaming a string chunk by chunk appends exactly its UTF-8, or fails when a surrogate is unpaired, an empty ASCII chunk splits a pair, or the frame is full |
| `Utf8.Write` | scripts/lib/convex-wasm-native-capability-runtime-main.cpp:403-446 | one chunk: what is appended and the surrogate left over cover the rest of the string, whatever follows |
| `Utf8.StreamedIgnoresChunking` | scripts/lib/convex-wasm-native-capability-runtime-main.cpp:397-455 | for chunks with something in them the result is the UTF-8 of the whole string, however it is split |
| `Utf8.EmptyChunkInterrupts` | scripts/lib/convex-wasm-native-capability-runtime-main.cpp:397-455 | a well-formed string that is refused: an empty ASCII chunk between the halves of a pair |
| `Utf8.StreamedMeans` | scripts/lib/convex-wasm-native-capability-runtime-main.cpp:397-455 | folding the callbacks over the chunks gives the UTF-8 of the whole string, or nothing if an empty ASCII chunk follows a lone high surrogate |
| `Utf8.StreamedIffUninterrupted` | scripts/lib/convex-wasm-native-capability-runtime-main.cpp:397-455 | so streaming is right exactly for the strings that have no UTF-8 anyway and those not interrupted like that |
| `Utf8.DefinedIffPaired` | scripts/lib/convex-wasm-native-capability-runtime-main.cpp:397-455 | a string has UTF-8 if and only if no surrogate in it is unpaired |
| `Utf8.Utf8Inverts` | scripts/lib/convex-wasm-native-capability-runtime-main.cpp:397-455 | a decoder gives the code units of the string back |
| `Utf8.DecodeInverts` | scripts/lib/convex-wasm-native-capability-runtime-main.cpp:397-455 | decoding inverts encoding on every sequence of scalar values |
| `Utf8.DecodeIsStrict` | scripts/lib/convex-wasm-native-capability-runtime-main.cpp:397-455 | the decoder accepts only shortest forms: what it accepts encodes back to the same bytes |
| `Utf8.Examples` | scripts/lib/convex-wasm-native-capability-runtime-main.cpp:397-455 | the examples of section 7 of RFC 3629, byte for byte, one for each length |
| `Bytes.Frame.Append` | scripts/lib/convex-wasm-native-capability-runtime-main.cpp:480-485 | bytes are appended if and only if the frame stays within its bound |
| `Bytes.Frame.PatchU32` | scripts/lib/convex-wasm-native-capability-runtime-main.cpp:513-520 | exactly four bytes change, to the number given; all others stay |
| `JsValues.UnfoldFits` | scripts/lib/convex-wasm-native-capability-runtime-main.cpp:547-686 | what is accepted is a tree within all limits of depth and size, at any nesting |
| `JsValues.LoopIsRefused` | scripts/lib/convex-wasm-native-capability-runtime-main.cpp:585-594 | an object that is reached from itself is refused even without the ancestor check, by depth alone |
| `JsValues.CheckIsRedundant` | scripts/lib/convex-wasm-native-capability-runtime-main.cpp:585-594 | on a path from the root the ancestor check never changes what is accepted or what is written |
| `JsValues.AcceptedIsAcyclic` | scripts/lib/convex-wasm-native-capability-runtime-main.cpp:585-611 | below an accepted value every descent is short and meets no object twice |
| `Acceptance.AcceptedIffFine` | scripts/lib/convex-wasm-native-capability-runtime-main.cpp:547-686 | a value is accepted if and only if every descent from it ends at something that is fine by itself and not too deep, however often a part is met |
| `Acceptance.SharedSiblingsAreAccepted` | scripts/lib/convex-wasm-native-capability-runtime-main.cpp:585-594 | an object that is met twice side by side is written twice |
| `Acceptance.AcceptedFields` | scripts/lib/convex-wasm-native-capability-runtime-main.cpp:653-680 | the fields of an accepted object are exactly its properties that are not undefined, with strictly ascending keys |
| `Acceptance.AcceptedItems` | scripts/lib/convex-wasm-native-capability-runtime-main.cpp:595-611 | the items of an accepted array are those of its places, null for a hole |
| `Denotation.UnfoldDenotes` | scripts/lib/convex-wasm-native-capability-runtime-main.cpp:547-686 | the tree of an accepted value is that value, kind by kind: the number's own bits, the text's UTF-8, the object's bytes, every place of an array, every defined property with its name |
| `Denotation.DenotesOne` | scripts/lib/convex-wasm-native-capability-runtime-main.cpp:547-686 | no other tree says the same of it, as long as no object has two properties of one name |
| `Denotation.UnfoldIffDenotes` | scripts/lib/convex-wasm-native-capability-runtime-main.cpp:547-686 | so of an accepted value exactly the tree that denotes it is written |
| `JsValues.OrderIsIrrelevant` | scripts/lib/convex-wasm-native-capability-runtime-main.cpp:623-680 | the order in which properties are enumerated changes neither acceptance nor the tree |
| `EntryOrder.SortedIsUnique` | scripts/lib/convex-wasm-native-capability-runtime-main.cpp:653-658 | properties with different names have one sorted order |
| `ValueWriter.ValueAbiWriter.EncodeFrame` | scripts/lib/convex-wasm-native-capability-runtime-main.cpp:468-478 | the back-patched buffer is the magic and the encoding of the tree that denotes the value; refused exactly if the value is not acceptable or its frame would not fit |
| `ValueWriter.ValueAbiWriter.Value` | scripts/lib/convex-wasm-native-capability-runtime-main.cpp:547-686 | one value: appends its encoding; the ancestor stack is as deep as the nesting and is restored |
| `ValueWriter.ValueAbiWriter.FieldName` | scripts/lib/convex-wasm-native-capability-runtime-main.cpp:534-545 | a field name is written as bytes exactly if all its characters are allowed |
| `ValueWriter.ValueAbiWriter.PutContainer` | scripts/lib/convex-wasm-native-capability-runtime-main.cpp:576-682 | containers: pushes the ancestor, writes the elements, pops it |
| `ValueWriter.ValueAbiWriter.PutArray` | scripts/lib/convex-wasm-native-capability-runtime-main.cpp:595-611 | arrays: holes become null, the count comes first |
| `ValueWriter.ValueAbiWriter.PutObject` | scripts/lib/convex-wasm-native-capability-runtime-main.cpp:612-681 | objects: sorted, undefined fields dropped, the count patched in afterwards |
| `ValuePasses.SkipFollowsParse` | scripts/lib/convex-wasm-native-capability-runtime-main.cpp:1273-1455 | whatever decodes can be skipped, and skipping stops at the same byte, from any position and nesting |
| `ValuePasses.ParseFollowsSkip` | scripts/lib/convex-wasm-native-capability-runtime-main.cpp:1273-1455 | the converse, for hosts that accept every packed document and the sentinel |
| `ValuePasses.GuardsAreRedundant` | scripts/lib/convex-wasm-native-capability-runtime-main.cpp:1315-1333 | the checks of counts against the remaining bytes refuse nothing that would not be refused as truncated, and change no value |
| `ValuePasses.SkipGuardsAreRedundant` | scripts/lib/convex-wasm-native-capability-runtime-main.cpp:1431-1451 | nor do those made while skipping |
| `ValueInverse.ParseInverts` | scripts/lib/convex-wasm-native-capability-runtime-main.cpp:1273-1374 | decoding an encoding gives the tree back and stops right behind it, whatever follows and at any nesting |
| `ValueInverse.FrameInverts` | scripts/lib/convex-wasm-native-capability-runtime-main.cpp:1141-1152 | a whole encoded frame decodes to its tree; the pending sentinel only where it is allowed |
| `ValueReader.ValueAbiReader.Decode` | scripts/lib/convex-wasm-native-capability-runtime-main.cpp:1141-1152 | the reader with its moving cursor computes the one-pass grammar, and refuses trailing bytes |
| `ValueReader.ValueAbiReader.Value` | scripts/lib/convex-wasm-native-capability-runtime-main.cpp:1273-1413 | one value: the result and the cursor are those of the grammar, though objects are read in two passes |
| `ValueReader.ValueAbiReader.SkipValue` | scripts/lib/convex-wasm-native-capability-runtime-main.cpp:1415-1455 | skipping moves the cursor to where the grammar says the value ends; it ends because bytes are used up, also through tag 11 |
| `ValueReader.ValueAbiReader.IndexFields` | scripts/lib/convex-wasm-native-capability-runtime-main.cpp:1349-1362 | the index of an object has the key and the start of every field, and the cursor stands behind the last |
| `ValueReader.ValueAbiReader.ObjectValue` | scripts/lib/convex-wasm-native-capability-runtime-main.cpp:1325-1374 | jumping back to decode the indexed fields gives what one pass would give |
| `ValueReader.ValueAbiReader.ArrayValue` | scripts/lib/convex-wasm-native-capability-runtime-main.cpp:1311-1324 | arrays and lists of documents: elements in order, each at the right nesting |
| `ValueCodec.RoundTrip` | scripts/lib/convex-wasm-native-capability-runtime-main.cpp:468-478 | encoding and decoding a value gives a tree that denotes it, kind by kind: undefined fields dropped, holes null, keys sorted; refused only if it is not acceptable, too long, or pending where that is not allowed |
| `ValueCodec.FrameRoundTrip` | scripts/lib/convex-wasm-native-capability-runtime-main.cpp:1141-1152 | the same on the grammar, for every value that is accepted and fits |
| `ValueCodec.EncodeIsInjective` | scripts/lib/convex-wasm-native-capability-runtime-main.cpp:547-686 | different trees have different encodings |
| `ValueCodec.FrameIgnoresOrder` | scripts/lib/convex-wasm-native-capability-runtime-main.cpp:623-680 | the bytes of a frame do not depend on property enumeration order |
| `ValueCodec.WireForm` | scripts/lib/convex-wasm-native-capability-runtime-main.cpp:560-583 | each tag on a small value, byte for byte: a double, a negative integer, text, a buffer |
| `ValueCodec.WireFormOfContainers` | scripts/lib/convex-wasm-native-capability-runtime-main.cpp:595-681 | an array and an object, byte for byte |
| `ValueDocuments.PackedInverts` | scripts/lib/convex-wasm-native-capability-runtime-main.cpp:1380-1390 | a packed document gives what the host makes of exactly its bytes at the level where it is met, whatever follows |
| `ValueDocuments.CollectionInverts` | scripts/lib/convex-wasm-native-capability-runtime-main.cpp:1391-1409 | a collection gives the values of its documents in order, each decoded at the outermost level, and is refused exactly if one of them is |
| `ValueDocuments.OnlyDocuments` | scripts/lib/convex-wasm-native-capability-runtime-main.cpp:1401-1404 | a collection that does not start with a document is refused |
| `QuerySpec.RecordsAreTransparent` | scripts/lib/convex-wasm-native-capability-runtime-main.cpp:754-829 | for every query and every choice of parts that are prebuilt records, the bytes and the verdict are those of the query without records |
| `QuerySpec.BuiltCost` | scripts/lib/convex-wasm-native-capability-runtime-main.cpp:754-793 | a built expression costs as many bytes, nodes and levels as the plain one; one that cannot be built would be refused anyway |
| `QuerySpec.BuiltSourceCost` | scripts/lib/convex-wasm-native-capability-runtime-main.cpp:870-927 | the same for range constraints and search filters of a source |
| `QueryDecoding.NodeInverts` | scripts/lib/convex-wasm-native-capability-runtime-main.cpp:1072-1119 | a decoder by the tags of the wire gives back from an encoded expression its tags, literals, paths and operands, whatever follows |
| `QueryDecoding.PartInverts` | scripts/lib/convex-wasm-native-capability-runtime-main.cpp:875-927 | and from a constraint, filter or operator its kind, path, value, expression or limit |
| `QueryDecoding.EncodingInverts` | scripts/lib/convex-wasm-native-capability-runtime-main.cpp:831-940 | between the header and the pagination of a frame stands what the query says, clause by clause |
| `QueryDecoding.FramesTellQueries` | scripts/lib/convex-wasm-native-capability-runtime-main.cpp:831-940 | accepted queries with one header and one kind of source have the same frame if and only if they have the same tags, paths, values, operands, limits and pagination |
| `QueryLimits.SensibleIffCounted` | scripts/lib/convex-wasm-native-capability-runtime-main.cpp:831-940 | whatever its size, a query is refused exactly if a part makes no sense in its place: wrong arity, text without UTF-8, a limit that is no whole number below 2^53, a clause of another position |
| `QueryLimits.AcceptedExactly` | scripts/lib/convex-wasm-native-capability-runtime-main.cpp:1056-1119 | accepted exactly if all parts make sense and what is said has at most 4096 expressions, nested at most 64 deep, in at most 16 MiB |
| `QueryWriter.QueryAbiWriter.Encode` | scripts/lib/convex-wasm-native-capability-runtime-main.cpp:831-940 | the writer, with its counters and its one buffer, computes the recursive encoding under all limits; EncodingInverts, FramesTellQueries and AcceptedExactly say what that holds |
| `QueryWriter.QueryAbiWriter.Expression` | scripts/lib/convex-wasm-native-capability-runtime-main.cpp:1072-1119 | one expression: appends its bytes and spends its nodes and depth, or fails exactly when it must |
| `QueryWriter.QueryAbiWriter.AppendRecord` | scripts/lib/convex-wasm-native-capability-runtime-main.cpp:1056-1070 | splicing a record spends what it records, within its kinds |
| `QueryWriter.QueryAbiWriter.PutClause` | scripts/lib/convex-wasm-native-capability-runtime-main.cpp:875-927 | one constraint, filter or operator, record or not |
| `QueryWriter.QueryAbiWriter.RecordExpression` | scripts/lib/convex-wasm-native-capability-runtime-main.cpp:754-793 | building an expression record yields what the specification of records says, or nothing |
| `QueryWriter.QueryAbiWriter.RecordClause` | scripts/lib/convex-wasm-native-capability-runtime-main.cpp:795-829 | building a record of a constraint, filter or operator |
| `Lifecycle.ChunkRuntime.Session` | scripts/lib/convex-wasm-native-capability-runtime-main.cpp:3308-3969 | after any sequence of top-level calls, with any guest and any host, the module is at a boundary: empty with no runtime, or live and sound; unless a trap has ended it |
| `Lifecycle.ChunkRuntime.Lease` | scripts/lib/convex-wasm-native-capability-runtime-main.cpp:366-376 | a top-level call from inside another one traps, and changes nothing else |
| `LifecycleSpec.SoundMeans` | scripts/lib/convex-wasm-native-capability-runtime-main.cpp:2988-3071 | sound: no loader error, no slot left Initializing; a chunk unit has run once exactly if it is loaded, the publication unit of an entry once exactly if the entry is exported, and nothing else has run |
| `LifecycleSpec.RunAtMostOnce` | scripts/lib/convex-wasm-native-capability-runtime-main.cpp:2138-2153 | whatever guest code does, no factory is run twice in one runtime |
| `LifecycleSpec.LoadingIsBounded` | scripts/lib/convex-wasm-native-capability-runtime-main.cpp:2138-2153 | at any time no more loadings are nested than there are chunks, and no more factories have been started than there are units |
| `LifecycleSpec.PublicationIsSound` | scripts/lib/convex-wasm-native-capability-runtime-main.cpp:2339-2347 | running the publication unit of an entry that is not exported and has not run keeps the invariant |
| `LifecycleSpec.PublicationFailureIsSound` | scripts/lib/convex-wasm-native-capability-runtime-main.cpp:2355-2359 | so does leaving it behind when it has failed |
| `Lifecycle.ChunkRuntime.RetainedIsValid` | scripts/lib/convex-wasm-native-capability-runtime-main.cpp:2988-3071 | the check with its cached scan always answers what a full scan would answer, and changes only the cache |
| `Lifecycle.ChunkRuntime.ScanSlots` | scripts/lib/convex-wasm-native-capability-runtime-main.cpp:3044-3063 | the scan passes exactly if every slot is loaded and published, or fresh |
| `Lifecycle.ChunkRuntime.RetainedIsEmpty` | scripts/lib/convex-wasm-native-capability-runtime-main.cpp:2945-2986 | empty means no support, no exports, nothing pending, not dirty, and only fresh slots |
| `LifecycleSpec.ValidIsSound` | scripts/lib/convex-wasm-native-capability-runtime-main.cpp:2988-3071 | for any state that loading can lead to, the retained check accepts exactly the sound ones |
| `LifecycleSpec.SettledPassesScan` | scripts/lib/convex-wasm-native-capability-runtime-main.cpp:3044-3063 | no slot half loaded is the same as a scan that passes |
| `Lifecycle.ChunkRuntime.InitializeUnit` | scripts/lib/convex-wasm-native-capability-runtime-main.cpp:2113-2173 | cyclic loading: an initialised unit yields its namespace and one being loaded its provisional one, changing nothing; else its factory is run. Failure has one of the causes listed and leaves the module dirty; what is defined without an error happens without one |
| `Lifecycle.ChunkRuntime.LoadUnit` | scripts/lib/convex-wasm-native-capability-runtime-main.cpp:2144-2172 | running a factory leaves fewer slots to load; it yields no namespace only if none was published, the factory threw, an error in it was not swallowed or the host refused |
| `LifecycleSpec.StartIsSound` | scripts/lib/convex-wasm-native-capability-runtime-main.cpp:2144-2148 | starting a unit keeps the invariant and leaves fewer units to load |
| `LifecycleSpec.FinishIsSound` | scripts/lib/convex-wasm-native-capability-runtime-main.cpp:2149-2172 | coming back from a factory keeps the invariant, whether it failed or not |
| `LifecycleSpec.GrowsTransitively` | scripts/lib/convex-wasm-native-capability-runtime-main.cpp:2113-2173 | what guest code may do to the state composes: slots only advance, the dirty flag stays, the cache is never wrong |
| `ModuleGraph.TranscriptPlays` | scripts/lib/convex-wasm-native-capability-runtime-main.cpp:2129-2137 | chunks that register, require their imports, publish and return load without an error, in cycles too: a cycle sees the provisional namespace |
| `ModuleGraph.LoadsWhatIsReachable` | scripts/lib/convex-wasm-native-capability-runtime-main.cpp:2113-2173 | afterwards exactly the chunks reachable by imports are loaded in addition, each under its own name |
| `ModuleGraph.EntryPlays` | scripts/lib/convex-wasm-native-capability-runtime-main.cpp:2304-2361 | and the publication unit of an entry then hands exactly that entry off |
| `Lifecycle.ChunkRuntime.RunGuest` | scripts/lib/convex-wasm-native-capability-runtime-main.cpp:2030-2095 | guest code may re-enter the loader and swallow its errors; the invariant holds whatever it does, it throws only by itself or after a loader error, and there are no more errors than callbacks |
| `Lifecycle.ChunkRuntime.BeginNamespace` | scripts/lib/convex-wasm-native-capability-runtime-main.cpp:2047-2070 | a namespace is registered exactly for an unpublished unit being loaded, and resets the cache |
| `Lifecycle.ChunkRuntime.PublishNamespace` | scripts/lib/convex-wasm-native-capability-runtime-main.cpp:2071-2095 | exactly the registered namespace of a unit being loaded can be published, once; any other attempt makes the module dirty |
| `Lifecycle.ChunkRuntime.ReadNamespace` | scripts/lib/convex-wasm-native-capability-runtime-main.cpp:2179-2206 | an entry's publication unit reads exactly its own chunk, once it is initialised |
| `Lifecycle.ChunkRuntime.PublishEntryNamespace` | scripts/lib/convex-wasm-native-capability-runtime-main.cpp:2207-2241 | an entry is handed off provisionally, exactly with the namespace of its initialised chunk and once |
| `Lifecycle.ChunkRuntime.ValidateTopology` | scripts/lib/convex-wasm-native-capability-runtime-main.cpp:2271-2302 | accepted exactly if the tables of entries, chunks and publication units are consistent |
| `Lifecycle.ChunkRuntime.InitializeEntry` | scripts/lib/convex-wasm-native-capability-runtime-main.cpp:2304-2361 | initialising an entry: its chunk loaded, its publication unit run for the first time and its exports moved in place, or dirty |
| `LifecycleSpec.HandOffIsSound` | scripts/lib/convex-wasm-native-capability-runtime-main.cpp:2349-2353 | moving the pending export in place keeps the invariant and yields a prepared entry |
| `Lifecycle.ChunkRuntime.Reset` | scripts/lib/convex-wasm-native-capability-runtime-main.cpp:2907-2943 | a reset leaves the module empty |
| `Lifecycle.ChunkRuntime.RetireIfInvalid` | scripts/lib/convex-wasm-native-capability-runtime-main.cpp:3772-3774 | a runtime survives exactly if it is sound |
| `Lifecycle.ChunkRuntime.PrepareSelectedEntry` | scripts/lib/convex-wasm-native-capability-runtime-main.cpp:3308-3577 | preparing an entry: status 0 means a ready boundary with a sound runtime that holds the entry and has lost nothing; any other status but 8 means no runtime; 8 changes nothing. With a host that says yes, an entry that is prepared or loads without an error always gives 0; preparing it again changes nothing |
| `Lifecycle.ChunkRuntime.PrepareWellBehaved` | scripts/lib/convex-wasm-native-capability-runtime-main.cpp:2113-2361 | preparing an entry of well-behaved chunks never fails, whatever cycles their imports make, and loads exactly the chunks the entry reaches that were not loaded |
| `Lifecycle.ChunkRuntime.Run` | scripts/lib/convex-wasm-native-capability-runtime-main.cpp:3579-3807 | an invocation: the boundary is ready only after success on an entry that was prepared; a surviving runtime keeps its exports and its loaded slots. A prepared entry, a host that says yes and a guest without errors always give the status of the invocation, a live runtime, and a ready boundary if that is 0 |
| `Lifecycle.ChunkRuntime.InvokeHandler` | scripts/lib/convex-wasm-native-capability-runtime-main.cpp:3646-3750 | invoking and driving the handler changes the state only as guest code may |
| `Lifecycle.ChunkRuntime.Drive` | scripts/lib/convex-wasm-native-capability-runtime-main.cpp:3708-3749 | the event loop keeps the invariant through every batch of host results, for as long as the host has any |
| `Lifecycle.ChunkRuntime.CleanUp` | scripts/lib/convex-wasm-native-capability-runtime-main.cpp:3752-3776 | after a handler: cleanup, abandoned operations and the final check; the invocation stays activated only if its cleanup failed |
| `Lifecycle.ChunkRuntime.Abandon` | scripts/lib/convex-wasm-native-capability-runtime-main.cpp:3777-3806 | after a failure: a last cleanup, and retirement if anything is wrong |
| `Lifecycle.ChunkRuntime.MemoryMaintenance` | scripts/lib/convex-wasm-native-capability-runtime-main.cpp:3832-3963 | maintenance without a trap had a ready boundary, keeps the runtime as it was, and certifies an image only before any invocation and with every entry prepared; with a host that says yes it traps for no other reason |
| `Lifecycle.ChunkRuntime.DestroyRuntime` | scripts/lib/convex-wasm-native-capability-runtime-main.cpp:3966-3969 | destroying leaves an empty module |
| `CallCycles.BuildIndex` | scripts/convex-wasm-compiler/src/callable_value_flow.rs:3444-3461 | the index finds at every place exactly the calls there |
| `CallCycles.Reaches` | scripts/convex-wasm-compiler/src/callable_value_flow.rs:3483-3495 | the search with one visited set: found means a way of one call or more, not found means none, although earlier dead ends are never looked at again |
| `CallCycles.MarkRecursive` | scripts/convex-wasm-compiler/src/callable_value_flow.rs:3480-3517 | a call is marked recursive if and only if it lies on a directed cycle, and the callables returned are the ends of marked calls |
| `CallCycles.OnCycleMeans` | scripts/convex-wasm-compiler/src/callable_value_flow.rs:3505-3509 | lying on a cycle is calling oneself, or a way back from the target |
| `RouteSpec.JoinedIsAssociative` | scripts/convex-wasm-compiler/src/callable_value_flow.rs:3516-3548 | composition of routes is associative |
| `RouteSpec.RouteOfMeans` | scripts/convex-wasm-compiler/src/callable_value_flow.rs:3516-3548 | a composed route starts like its first base, ends like its last, and its base path ids spell its chain |
| `RouteSpec.RouteOfAt` | scripts/convex-wasm-compiler/src/callable_value_flow.rs:3516-3548 | place by place: the callables it passes, the calls that link them, and all steps in order |
| `RouteSpec.BlockedIffOneIs` | scripts/convex-wasm-compiler/src/callable_value_flow.rs:3543 | a route is blocked if and only if one of its base routes is |
| `RouteSpec.LinkedIffChain` | scripts/convex-wasm-compiler/src/callable_value_flow.rs:3764-3811 | the routes of two chains link exactly if the chains join into one chain |
| `RouteSpec.JoinedIsRouteOf` | scripts/convex-wasm-compiler/src/callable_value_flow.rs:3516-3548 | composing them gives the route of the joined chain, wherever it is split |
| `RouteLinks.LinkCallMeans` | scripts/convex-wasm-compiler/src/callable_value_flow.rs:3463-3477 | in terms of the calls alone: a call links two routes exactly if it is the only one in its place, exact, safe and on no cycle, and its argument enters the parameter of that number below the parameter count, or its target's return leaves as its result |
| `RouteLinks.RouteIffLinked` | scripts/convex-wasm-compiler/src/callable_value_flow.rs:3516-3548 | a route is that of a chain exactly if such calls link its base routes and it takes their steps, callables and callsites in turn |
| `Routes.Link` | scripts/convex-wasm-compiler/src/callable_value_flow.rs:3764-3811 | the test in the loop yields exactly the call that links two routes: unique, exact, safe, of the right target and place, and on no cycle |
| `Routes.ComposedIsProper` | scripts/convex-wasm-compiler/src/callable_value_flow.rs:3516-3548 | two routes that link have one joined chain; composing them gives exactly its route, or nothing exactly if the chain is deeper than 12 |
| `Routes.IsRouteMeans` | scripts/convex-wasm-compiler/src/callable_value_flow.rs:3764-3811 | so the routes are those that go along base routes linked by such calls, and no others |
| `Routes.Pass` | scripts/convex-wasm-compiler/src/callable_value_flow.rs:3761-3830 | one pass closes every pair of the snapshot or reports an excess, and adds only routes of chains, none twice |
| `Routes.Fixpoint` | scripts/convex-wasm-compiler/src/callable_value_flow.rs:3758-3834 | the loop ends; it is incomplete if and only if it was before, a chain is deeper than 12 or there are more than 1024 |
| `Routes.ClosedHasChain` | scripts/convex-wasm-compiler/src/callable_value_flow.rs:3758-3834 | when every pair is closed the route of every chain is present, and no chain is too deep |
| `Routes.ComposeRoutes` | scripts/convex-wasm-compiler/src/callable_value_flow.rs:3712-3834 | unless incomplete, the routes are exactly those of all chains of linked base paths, as IsRouteMeans reads them; incomplete exactly when a longer linkable chain or a 1025th one exists |
| `Routes.BaseRoutes` | scripts/convex-wasm-compiler/src/callable_value_flow.rs:3713-3743 | a numbered base route for every path of every flow, blocked exactly if the flow rejects its origin; sorted by callables, with no repetition side by side |
| `Routes.BlockedIffRejected` | scripts/convex-wasm-compiler/src/callable_value_flow.rs:3716-3718 | a route is blocked exactly if it passes a path whose flow rejects where that starts |
| `Routes.BuildRoutes` | scripts/convex-wasm-compiler/src/callable_value_flow.rs:3678-3834 | from flows and calls to routes, with all of the above; what was incomplete before stays so |
| `Rootedness.Search.CallableRooted` | scripts/convex-wasm-compiler/src/callable_value_flow.rs:3055-3117 | the memoised search answers the least fixed point, for every order of queries; what it caches while it cuts a cycle is right |
| `Rootedness.Search.RoutesRooted` | scripts/convex-wasm-compiler/src/callable_value_flow.rs:3120-3141 | all callables on all routes, with one cache |
| `Rootedness.RootedUnfolds` | scripts/convex-wasm-compiler/src/callable_value_flow.rs:3055-3117 | rooted means: a skeleton, acceptable inbound calls from rooted callers only, and a handler, runtime-awaited or called |
| `Rootedness.RootedMeans` | scripts/convex-wasm-compiler/src/callable_value_flow.rs:3055-3117 | rooted, read activation by activation: exact, with a rooted caller, and awaited in sequence, returned where nothing is finalized, or a child of an aggregate root of the caller |
| `Rootedness.RootedIffNoBadChain` | scripts/convex-wasm-compiler/src/callable_value_flow.rs:3055-3117 | equivalently no chain of inbound calls reaches an unacceptable callable or comes back to itself |
| `Rootedness.CutIsSound` | scripts/convex-wasm-compiler/src/callable_value_flow.rs:3065-3070 | a callable met again while it is being visited is not rooted, now or later |
| `Grounding.GroundedIsLeast` | scripts/convex-wasm-compiler/src/callable_value_flow.rs:3055-3117 | the solution used is the least one: any other holds wherever it does |
| `Grounding.GroundedIffNoWitness` | scripts/convex-wasm-compiler/src/callable_value_flow.rs:2153-2196 | grounded if and only if no path goes wrong, where finitely many nodes can be met |
| `MustReach.ReachableBlocks` | scripts/convex-wasm-compiler/src/callable_control.rs:159-176 | the breadth-first search returns exactly the blocks reachable inside the function |
| `MustReach.Number` | scripts/convex-wasm-compiler/src/callable_control.rs:270-279 | reachable blocks are numbered from 0 in ascending order |
| `MustReach.CollectSkeleton` | scripts/convex-wasm-compiler/src/callable_control.rs:178-314 | the skeleton is the reachable blocks, renumbered one to one, with their edges kept, each as often, sorted by target and kind |
| `MustReach.ReachesSink` | scripts/convex-wasm-compiler/src/callable_value_flow.rs:2158-2192 | the recursive test with its visiting set is well-founded reachability |
| `MustReach.ContinuationsReachSink` | scripts/convex-wasm-compiler/src/callable_value_flow.rs:2153-2196 | yes if and only if the blocks differ and no way on from the source gets stuck, meets an unreachable block or loops before the sink |
| `MustReach.SkeletonAgrees` | scripts/convex-wasm-compiler/src/callable_control.rs:178-233 | the answer on the skeleton is the answer on the whole graph |
| `Operands.Resolver.ResolveParameter` | scripts/convex-wasm-compiler/src/callable_effects.rs:102-146 | a set if and only if the backward flow is acyclic, complete and ends in literals; then exactly the literals that reach the parameter; the cache never changes an answer |
| `Operands.Resolver.ResolveArgument` | scripts/convex-wasm-compiler/src/callable_effects.rs:78-100 | literals, parameters and unknown arguments |
| `Operands.ResolvableByCalls` | scripts/convex-wasm-compiler/src/callable_effects.rs:102-146 | resolvable, call by call |
| `Operands.ReachableTogether` | scripts/convex-wasm-compiler/src/callable_effects.rs:123-143 | the literals that reach a parameter are those its calls pass, put together, and there is one |
| `Operands.ReachesUnfolds` | scripts/convex-wasm-compiler/src/callable_effects.rs:102-146 | a literal reaches a parameter if it is passed here or reaches a source |
| `Operands.CutIsSound` | scripts/convex-wasm-compiler/src/callable_effects.rs:112-114 | a parameter met again while it is being visited has no answer |
| `Specialize.Assignments` | scripts/convex-wasm-compiler/src/callable_effects.rs:206-240 | exactly the choices of one resolved value for each operand, or none |
| `Specialize.SpecializeEffects` | scripts/convex-wasm-compiler/src/callable_effects.rs:168-266 | exactly what the policy admits is emitted, for all templates and calls, in order and with no repetition side by side |
| `Specialize.EmittedMeans` | scripts/convex-wasm-compiler/src/callable_effects.rs:168-266 | what an emitted effect says, field by field: its template, its call, the value of the last operand for each field; and which suspending effects the policy for blocking fibers leaves out |
| `ActualRuns.ParameterIsSound` | scripts/convex-wasm-compiler/src/callable_effects.rs:102-146 | in every run a resolved parameter gets one of the strings it resolves to, if every argument on the way stays in its place |
| `ActualRuns.ActualOperandsAreEmitted` | scripts/convex-wasm-compiler/src/callable_effects.rs:168-266 | in every run the actual operands of an effect are among those emitted for its call, under the same condition |
| `ActualRuns.SoundIffFlowIsSafe` | scripts/convex-wasm-compiler/src/callable_plans.rs:2336-2360 | the condition is exact: where some run activates every caller, an answer can be relied on in all runs if and only if no unknown argument of a call with a cleared flag stands before one that is followed |
| `ActualRuns.ShiftedOperandIsMissing` | scripts/convex-wasm-compiler/src/callable_effects.rs:188-193 | a spread argument before a forwarded literal: an actual operand is not among those emitted, and one that never occurs is |
| `ValueCollector.Collector.Resolve` | scripts/convex-wasm-compiler/src/callable_value_flow.rs:213-344 | the collector computes the paths of the specification, which PathsAreFlows pins, and leaves its set of declarations as it was |
| `ValueCollector.Collector.ResolvePromiseAll` | scripts/convex-wasm-compiler/src/callable_value_flow.rs:459-535 | elements of Promise.all in order, stopping for good beyond 32 paths |
| `ValueExpr.PathsAreContinuous` | scripts/convex-wasm-compiler/src/callable_value_flow.rs:213-344 | every path is an unbroken chain of expression ranges from its origin to the expression |
| `ValueExpr.PathsAreFew` | scripts/convex-wasm-compiler/src/callable_value_flow.rs:285-287 | at most 32 paths come back |
| `ValueFlows.ExploreMeans` | scripts/convex-wasm-compiler/src/callable_value_flow.rs:213-344 | one step back: the origin of an expression, or all parts that lead to it, each by a step of its own: constants, both branches, all elements of Promise.all |
| `ValueFlows.PathsAreFlows` | scripts/convex-wasm-compiler/src/callable_value_flow.rs:213-344 | the paths that come back are exactly those that lead to the expression and come through no part with more than 32 paths, and none comes back twice |
| `ValueFlows.FlowsAreCollected` | scripts/convex-wasm-compiler/src/callable_value_flow.rs:213-344 | so where no part on the way has more than 32, a path comes back if and only if it leads to the expression |
| `ValueFlows.CrowdedHasNone` | scripts/convex-wasm-compiler/src/callable_value_flow.rs:285-287 | an expression with more than 32 paths has none |
| `ValueFlows.BothBranches` | scripts/convex-wasm-compiler/src/callable_value_flow.rs:300-337 | the origins of both branches of a conditional expression come back |
| `ValueCollector.AuthenticateContinuity` | scripts/convex-wasm-compiler/src/callable_value_flow.rs:1575-1606 | the ordered check accepts exactly the unbroken chains that end at the sink's value |
| `ValueCollector.MappedIsContinuous` | scripts/convex-wasm-compiler/src/callable_value_flow.rs:1575-1606 | putting anchors for ranges breaks no chain, and mends none if the anchors tell ranges apart |
| `ValueCollector.CollectAndAuthenticate` | scripts/convex-wasm-compiler/src/callable_value_flow.rs:1575-1615 | whatever the collector returns authenticates for any sink on the expression; and it returns exactly the paths that lead there, but through parts with more than 32 |
| `ValueEnds.EndsIffNoLoop` | scripts/convex-wasm-compiler/src/callable_value_flow.rs:213-344 | following an expression ends if and only if it never comes back to an expression with the same declarations being followed |
| `ValueEnds.RankedEnds` | scripts/convex-wasm-compiler/src/callable_value_flow.rs:258-272 | constants that refer to themselves are cut: all ends when no array constant leads back to itself through Promise.all |
| `ValueEnds.SelfWaitingNeverEnds` | scripts/convex-wasm-compiler/src/callable_value_flow.rs:459-503 | const xs = [Promise.all(xs)] is followed for ever, since array constants are not noted as being followed |
| `ValueEnds.EndsWithoutCircle` | scripts/convex-wasm-compiler/src/callable_value_flow.rs:213-344 | where no expression leads back to itself, whether or not collecting stops before, following ends |
| `ValueEnds.FirstCircleNeverEnds` | scripts/convex-wasm-compiler/src/callable_value_flow.rs:273-291 | what leads back to itself through first elements and first branches, which nothing stops, never ends |
| `Allocator.FreePayload.Enumerate` | scripts/lib/convex-wasm-allocator.c:36-97 | traps exactly on bad arguments; else the in-place output and the result are those of a plain scan of the chunks in visiting order |
| `Allocator.FreePayload.VisitTree` | scripts/lib/convex-wasm-allocator.c:70-95 | a tree: the fixed stack of 32 never overflows, no trap is reached, and all nodes are visited in order until a bound |
| `Allocator.FreePayload.VisitRing` | scripts/lib/convex-wasm-allocator.c:84-94 | the ring of a node: each chunk once |
| `Allocator.FreePayload.VisitChunk` | scripts/lib/convex-wasm-allocator.c:12-32 | one chunk: counted, and its whole pages appended if there are any |
| `Allocator.EnumerationIsSafe` | scripts/lib/convex-wasm-allocator.c:36-97 | ranges are at most visits, visits at most the limit, ranges at most 128, page-aligned, not empty, disjoint, within the address space and clear of the margins of one free chunk each |
| `Allocator.CompleteCoversAll` | scripts/lib/convex-wasm-allocator.c:61-97 | a zero result: every big free chunk was visited exactly once, and every page that fits between its margins is covered |
| `FreeChunks.ScanMeans` | scripts/lib/convex-wasm-allocator.c:36-97 | how far a scan gets: a prefix, partial exactly if a bound was reached |
| `FreeChunks.BigChunksAreVisited` | scripts/lib/convex-wasm-allocator.c:61-68 | skipping low bins misses no chunk that can hold a page |
| `FreeChunks.RangesAreDisjoint` | scripts/lib/convex-wasm-allocator.c:12-32 | ranges of disjoint chunks are whole pages and disjoint |
| `Pages.PageSizes` | scripts/lib/convex-wasm-allocator.c:38-41 | the test on the argument accepts exactly the powers of two in range |
| `Pages.PayloadIsExact` | scripts/lib/convex-wasm-allocator.c:24-26 | no sum of addresses wraps around |
| `Pages.PayloadIsInside` | scripts/lib/convex-wasm-allocator.c:12-32 | a range is whole pages between the margins of its chunk |
| `Pages.PayloadHasPage` | scripts/lib/convex-wasm-allocator.c:19-31 | a page is in the range if and only if it lies between the margins |
| `IcuTracker.Tracker.Allocate` | experiments/intl-icu-provider/main.cpp:47-69 | null exactly on an injected fault, an overflow or no memory, and then only the attempt counts; else one more block at the head |
| `IcuTracker.Tracker.Free` | experiments/intl-icu-provider/main.cpp:71-84 | a live block leaves the list and the counters; null does nothing; the abort is never reached |
| `IcuTracker.Tracker.Reallocate` | experiments/intl-icu-provider/main.cpp:86-107 | null allocates, zero bytes free, a failed call changes neither list nor sizes, a moved block keeps its place |
| `IcuTracker.Tracker.Unlink` | experiments/intl-icu-provider/main.cpp:77-81 | the links stay inverse to each other around a block taken out |
| `IcuTracker.Tracker.Relink` | experiments/intl-icu-provider/main.cpp:97-101 | the neighbours of a block that may have moved point to it |
| `IcuTracker.Tracker.Run` | experiments/intl-icu-provider/main.cpp:37-107 | after any calls on live blocks the list is exactly the live blocks, the count its length and the bytes their sum |
| `IcuTracker.FreeUndoesAllocate` | experiments/intl-icu-provider/main.cpp:47-84 | freeing what was just allocated leaves the sizes as they were |
| `IcuTracker.ReallocateIsFreeAndAllocate` | experiments/intl-icu-provider/main.cpp:86-107 | resizing counts like freeing and allocating, in place or moved |
| `IcuTracker.SumWithout` | experiments/intl-icu-provider/main.cpp:75-76 | the sum of the sizes loses exactly one block, so it never underflows |
| `Census.Accumulator.RecordResult` | scripts/convex-wasm-compiler/src/diagnostic_census.rs:162-231 | refused exactly for a result that does not exist or was recorded; else all counters, ordinals and memberships say what has been reported |
| `Census.Accumulator.Finalize` | scripts/convex-wasm-compiler/src/diagnostic_census.rs:242-311 | refused exactly if a result is missing; else the census of all results with final places for ordinals |
| `Census.CensusInOrder` | scripts/convex-wasm-compiler/src/diagnostic_census.rs:162-311 | for every order of recording the result is the census of all results |
| `CensusSpec.CensusIsUnique` | scripts/convex-wasm-compiler/src/diagnostic_census.rs:242-311 | the results alone determine entries and membership |
| `CensusSpec.CensusConserves` | scripts/convex-wasm-compiler/src/diagnostic_census.rs:162-311 | occurrences add up to the total, exports to the size of the membership |
| `CensusSpec.CountedBothWays` | scripts/convex-wasm-compiler/src/diagnostic_census.rs:193-217 | counting by key and counting by result agree |
| `Census.Accumulator.Renumber` | scripts/convex-wasm-compiler/src/diagnostic_census.rs:247-284 | keys strictly sorted, and every ordinal mapped to the place of its key |
| `Census.Accumulator.Remap` | scripts/convex-wasm-compiler/src/diagnostic_census.rs:285-303 | index i is in result r exactly if r reported the i-th key, strictly sorted |
| `Ownership.ValidateOwnerRanges` | scripts/convex-wasm-compiler/src/callable_resolution.rs:413-435 | accepted exactly if the ranges nest and none occurs twice |
| `Ownership.InnermostOwner` | scripts/convex-wasm-compiler/src/callable_resolution.rs:437-459 | ambiguous exactly if two owners of one width are met with none narrower before; else the narrowest, or none |
| `Ownership.NestedNeverClashes` | scripts/convex-wasm-compiler/src/callable_resolution.rs:437-459 | after validation no stretch with something in it is ambiguous |
| `Ownership.OwnerIsUnique` | scripts/convex-wasm-compiler/src/callable_resolution.rs:437-459 | the owner is the same in every order and lies inside every other range that holds the stretch |
| `Ownership.EmptyStretchCanClash` | scripts/convex-wasm-compiler/src/callable_resolution.rs:449-452 | an empty stretch where two callables of one size meet is ambiguous |
| `Ownership.ClashesInSomeOrder` | scripts/convex-wasm-compiler/src/callable_resolution.rs:437-459 | exactly the empty stretches where two callables of one width meet are ambiguous in some order |
| `Aliases.ResolveInner` | scripts/convex-wasm-compiler/src/callable_resolution.rs:124-163 | resolution ends on every cycle of aliases and imports, with what following the chain gives |
| `Aliases.Resolve` | scripts/convex-wasm-compiler/src/callable_resolution.rs:115-122 | from a fresh start |
| `Aliases.TargetCache.Lookup` | scripts/convex-wasm-compiler/src/callable_resolution.rs:165-179 | cached or not, the same answer; failures are not cached |
| `Aliases.FoundIsFirstUnit` | scripts/convex-wasm-compiler/src/callable_resolution.rs:124-163 | a target found is the first unit on the chain that is not an alias |
| `Aliases.TargetMeans` | scripts/convex-wasm-compiler/src/callable_resolution.rs:124-163 | what a name means, case by case: units before imports, aliases, renamed exports, imports for types only, and what fails for good |
| `Aliases.CycleHasNoTarget` | scripts/convex-wasm-compiler/src/callable_resolution.rs:131-133 | a chain that comes back to itself has no target |
| `NumberParts.FormatToParts` | experiments/intl-icu-provider/fix-adapter.py:18-49 | the parts are the characters grouped by the type of the first narrowest field around each, or literal |
| `NumberParts.SelectField` | experiments/intl-icu-provider/fix-adapter.py:32-37 | the first of the narrowest fields that span the stretch, or none |
| `NumberParts.FindEndpoints` | experiments/intl-icu-provider/fix-adapter.py:21-27 | the cuts: both ends of the text and of every field, strictly ascending |
| `NumberParts.SameTypeBetween` | experiments/intl-icu-provider/fix-adapter.py:29-39 | between two cuts every character has the type of the whole stretch |
| `NumberParts.GroupedJoins` | experiments/intl-icu-provider/fix-adapter.py:40-49 | the parts spell the text, none is empty, and neighbours differ in type |
| `NumberParts.GroupedSpreads` | experiments/intl-icu-provider/fix-adapter.py:40-49 | the parts give every character its type |
| `NumberParts.GroupingIsUnique` | experiments/intl-icu-provider/fix-adapter.py:40-49 | no other list of parts does |
| `Edits.Canonicalize` | scripts/convex-wasm-compiler/src/capability_specialization.rs:50-73 | fails exactly if an outermost edit conflicts with another; else keeps exactly the outermost ones, in order and apart: comparing with the last kept edit is enough |
| `Edits.DroppedAreCovered` | scripts/convex-wasm-compiler/src/capability_specialization.rs:54-70 | every dropped edit equals a kept one or lies inside one |
| `Edits.CanonicalAgain` | scripts/convex-wasm-compiler/src/capability_specialization.rs:50-73 | a second run changes nothing |

## Left out

- Patch mode and its tag 12: the reader does not accept it.
- Packed documents (tag 10): a length-prefixed slice that the host decodes; FlexBuffers itself is not part of this model.
- Getters and proxies that change the object graph while it is encoded: the graph is fixed during one call.
- Query frames: magic, terminal, table and index names and pagination are bytes, or refused, as a whole; cyclic plain query
  objects are not modelled, since queries are finite trees here.
- Error messages, and which of several errors is reported first.
- Bit operators of UTF-8, of page alignment and of the power-of-two test are written as arithmetic; `size_t` is 32 bits wide.
- Lifecycle: the batched import of `./__convex_wasm_initialize_imports.js`, exposing and clearing JavaScript globals, heap
  statistics, tracing, layout hints, and what the collector does; the engine's and the host's decisions are arbitrary
  answers.
- Lifecycle: what a store does after a trap; builds without chunks, host imports, capability calls and the checks of
  their arguments.
- Routes: the other fields of the graph (source blocks, consumer plans), which the fixpoint does not use; whether they made
  it incomplete before is given.
- MustReach.CollectSkeleton: leaves out instructions and the points of awaits and calls inside blocks, because the
  reachability test does not use them.
- Rootedness: which aggregate roots and runtime-awaited callables there are is given.
- Specialize.SpecializeEffects: takes the comparison of emitted effects as given, since only that it is one matters.
- Value flow: reading a syntax tree from JSON, and errors for malformed nodes; authenticating digests and provenance other
  than continuity. Anchors are the ranges of one module with its digest.
- ValueCollector.Collector.Resolve: asks that following the expression ends, because the source does not end otherwise.
- ValueEnds.RankedEnds: goes one way only, because a loop may lie behind an early stop at more than 32 paths; where nothing
  can stop, `ValueEnds.FirstCircleNeverEnds` is the other way, and `ValueEnds.EndsIffNoLoop` is exact.
- ActualRuns.ActualOperandsAreEmitted: assumes that arguments on the way stay in their places; see
  `ActualRuns.SoundIffFlowIsSafe`. Runs know of a call what its description says, and not which of its unknown
  arguments is spread.
- dlmalloc: well-formed bins with a monotone index are assumed, with trees of at most 32 levels; the sizes of its structures
  are constants for 32-bit words, since dlmalloc.c is not part of this model.
- ICU tracker: the C library grants memory only where there is room beside the live blocks; alignment, and wrap-around of the
  counter of attempts.
- Census: overflow of counters, hashes as identifiers (taken to be injective), and serialised sizes.
- Ownership: reading units from module summaries; the indexes over calls and references that use the owners.
- Number parts: names for kinds of fields are a function that is given, since the adapter's table is not part of this model;
  the correction of hour cycles is text replacement.
- NumberParts.FormatToParts: asks that every field lies in the text, as ICU reports them.
- Edits.Canonicalize: takes edits that do not end before they start.
- Edits: which edits a proved branch yields, and applying them to the source.
- `admission.rs`, `adapter_material.rs`, `adapter_semantics.rs`, `callable_plan_builder.rs`: tables of rules and field checks
  that would only add easy members.
