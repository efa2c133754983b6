# Verification of the ithmb ImageGlass plugin

A Dafny model of the plugin around the image decoder: who owns each pixel
buffer while any number of threads decode and free, the arithmetic that sizes a
buffer, the UTF-16 strings at the boundary, the dimension parser and extension
matcher, file reading and metadata, start-up, and the fuzz harness's generator.
`dafny verify dfyconfig.toml` checks everything.

| file | what it models |
|---|---|
| Abi.dfy | statuses, the host's pixel buffer, fixed-width casts and checked multiplication |
| BufferSize.dfy | from decoded dimensions to the size asked of malloc, for 32-bit and 64-bit `usize` |
| Registry.dfy | the registry of buffers and its mutex, as a class |
| Lifecycle.dfy | decode and free as atomic steps of any number of threads, with address reuse, host copies and poisoning |
| Ownership.dfy | the invariant of those steps: who owns each live block |
| History.dfy | the life of every single buffer over whole runs |
| Accounting.dfy | counts over whole runs, progress of each call, provenance of published addresses |
| Atomicity.dfy | a decode that does not answer Ok leaves no mark, under any interleaving |
| Publication.dfy | what a decode that answers Ok leaves in the host's struct and the registry |
| Decode.dfy | the same entry points as methods on the heap, the registry and the host's struct |
| Refinement.dfy | each uninterrupted call of the interleaved system ends as the methods' contracts say |
| Utf16.dfy | encoding, lossy decoding and string references |
| Dimensions.dfy | the parser of dimension strings, down to UTF-8 byte offsets |
| Extensions.dfy | the extension match loop |
| FileIo.dfy | full and prefix reads of an abstract file |
| Metadata.dfy | the two-tier metadata lookup |
| Startup.dfy | the entry point and the write-once cells under racing callers |
| EntryPoint.dfy | the same statics as a class |
| FuzzHarness.dfy | the xorshift generator and the input mutator |

## Where the code and its documentation differ

- src/decode.rs:105-107 says the decoded data holds exactly the copied number of
  bytes. `BufferSize.CopyIsWholeImageIff` proves this exactly when no non-empty
  dimension exceeds `i32::MAX`; otherwise the copy is a proper prefix. It never
  reads past the data in either case (`BufferSize.CopyFits`). The repository does
  not show the type of the decoder's width and height. If they are 32-bit fields
  the comment always holds (`BufferSize.NarrowFieldsCopyWholeImage`), so the
  difference exists only for 64-bit fields, and there only for an image of at
  least 16 GiB (`BufferSize.CopyCanBePartial` is one).
- src/decode.rs:97-99 calls the new allocation zero-initialized. src/allocator.rs:22-25
  calls malloc, which promises no contents: in the model a new block may hold any
  bytes (`Lifecycle.FreshBlockIsArbitrary`, `Lifecycle.FreshBlockNotZeroed`), and
  the copy alone determines what the host reads.
- src/codec.rs:63 documents a case-insensitive ASCII comparison. The loop compares
  low bytes. `Extensions.TruncationMattersIff` says for which units it matches too
  much, and that it never matches too little; `Extensions.NarrowUnitsAgree` is the
  part a caller can rely on and `Extensions.TruncationCanMatter` shows a false match.
- src/lib.rs:231-233 says a host pointer that is already stored is identical to the
  one offered. Nothing checks this: `Startup.WriteOnce` and
  `EntryPoint.PluginStatics.GetApi` keep the first one, whatever is offered later.
- src/file_io.rs:36-43 presents the prefix read as a cheaper form of the full read.
  `FileIo.PrefixAgreesIff` gives the inputs on which their statuses differ: what
  opens, is within the size limit, and breaks while being read.
- src/types.rs:399-401 argues that a string can never exceed `i32::MAX` units. The
  round trip is proved with that bound as an exact condition
  (`Utf16.StringRefRoundTripIff`).

## Model

| member | source | states |
|---|---|---|
| BufferSize.CopyFits | src/decode.rs:86-110 | Whenever the size computation succeeds with a size malloc can grant, the size is the exact signed product of the published height and stride, is at most the length of the decoded data, and is 0 if either cast dimension is negative. Holds for every natural width and height and both `usize` widths. |
| BufferSize.AllocatableExactly | src/decode.rs:86-103 | Exactly which wrapped dimensions lead to an allocation: the stride fits in i32 and either factor is zero or both are positive with a product malloc can grant. |
| BufferSize.InRangeDimensions | src/decode.rs:86-95 | For width up to `i32::MAX / 4` and height up to `i32::MAX` the plan is four bytes per pixel with no wrap, refused only when it exceeds the signed maximum, and never refused on 64-bit platforms. |
| BufferSize.CopyIsWholeImageIff | src/decode.rs:105-110 | The copied size equals the data's length if and only if the image is empty or neither dimension exceeds `i32::MAX`. |
| BufferSize.NarrowFieldsCopyWholeImage | src/decode.rs:86-110 | If width and height fit in 32 bits, as they would in 32-bit fields, every copy that takes place is the whole image. |
| BufferSize.CopyCanBePartial | src/decode.rs:86-95 | An instance with a width above 32 bits, possible only for 64-bit fields, in which the copy is a proper prefix of the data. |
| Registry.RegisterThenUnregister | src/buffer_registry.rs:69-95 | Registering a new pointer and unregistering it returns the entry unfreed, restores the table, and a second register or unregister in between or after answers InvalidArg. |
| Registry.BufferRegistry.Register | src/buffer_registry.rs:69-83 | Internal on a poisoned mutex, InvalidArg on a tracked pointer, otherwise the entry is inserted unfreed; errors change nothing. |
| Registry.BufferRegistry.Unregister | src/buffer_registry.rs:92-95 | Internal on a poisoned mutex, InvalidArg on an unknown pointer, otherwise the entry is returned and exactly it is removed. |
| Registry.PoisonRefusesAll | src/buffer_registry.rs:69-95 | Behind a poisoned mutex both updates answer Internal, tracked or not, and change nothing. |
| Ownership.StepKeepsInv | src/decode.rs:86-183 | Every atomic step of decode, free, host and mutex keeps the ownership invariant: held blocks are live, unregistered and held by one thread; entries are truthful; no live block is forgotten; nothing invalid was accessed. |
| Ownership.LiveBlocksPartition | src/decode.rs:100-183 | In every reachable state the live blocks are the disjoint union of registered ones, those held by decodes between alloc and register, and those held by frees between unregister and free; no two threads hold the same block. |
| Ownership.NoInvalidAccess | src/decode.rs:108-119 | No run ever frees a block that is not live or copies outside a live block. |
| Ownership.RegisterFailsOnlyWhenPoisoned | src/decode.rs:112-121 | A decode reaching `register` never finds its address tracked, in any run with address reuse; the undo branch is taken only behind a poisoned mutex. |
| Ownership.RegistrationIsExact | src/decode.rs:112-114 | At the registration step the entry's size, the block's size and the height times stride about to be published are the same number. |
| Ownership.EntriesAreTruthful | src/buffer_registry.rs:19-26 | Every entry's pointer is its key, its size is the live block's size, and it is never marked freed. |
| Ownership.QuiescentMeansRegistered | src/decode.rs:148-185 | With no call in flight, the live blocks are exactly the registered ones. |
| History.EveryBufferLivesOneLife | src/decode.rs:100-183 | Each allocation's events are a prefix of: allocated, registered by the same decode, unregistered, released by the same free; or of: allocated, undone by the same decode. Address reuse does not mix lives. |
| History.FreedAtMostOnce | src/decode.rs:173-183 | However many threads race to free copies of one struct, two frees in one run never concern the same allocation. |
| History.RegisteredPixelsStay | src/decode.rs:105-133 | While registered, a block holds the bytes its own decode copied, whatever other threads and the allocator do. |
| Accounting.BooksBalance | src/decode.rs:100-183 | In every reachable state registry size, heap size and successful decodes balance against the events; at rest, registry size is Ok decodes minus successful unregisters. |
| Accounting.CallsFinish | src/decode.rs:35-185 | Each step of a thread brings its call strictly closer to returning, no other step sets it back, and a decode needs at most 9 steps and a free at most 7. |
| Accounting.CallsNeverStall | src/decode.rs:35-185 | A thread inside a call always has an enabled step. |
| Accounting.PublishedAfterRegistered | src/decode.rs:112-133 | If the host starts with empty structs and only copies them, every address visible in one was registered before. |
| Atomicity.RefusedDecodeLeavesNoMark | src/decode.rs:86-139 | In any run, with any other calls interleaved, a decode that returns without answering Ok changes no host struct and no registry entry, and undoes every block it allocated itself. |
| Atomicity.PublishingReturnsOk | src/decode.rs:123-135 | The next thing a decode that has registered its buffer logs is the answer Ok, so registration and the answer never disagree. |
| Publication.AcceptedDecodePublishes | src/decode.rs:86-139 | A decode that answers Ok, in any run whose other calls leave its struct alone meanwhile, registered one buffer with the decoded bytes and published exactly it; in any continuation, until that very buffer is unregistered, its entry's size is the published height times stride and the block holds those bytes. |
| Publication.RegisteredUntilUnregistered | src/buffer_registry.rs:69-95 | In any run, a logged registration not followed by an unregistration of the same buffer is in the registry with its own size and pixels, address reuse or not. |
| Lifecycle.FreshBlockIsArbitrary | src/allocator.rs:22-25 | Any bytes at all may be the contents of a block between malloc and the copy. |
| Lifecycle.FreshBlockNotZeroed | src/decode.rs:97-100 | A reachable state in which the fresh block is not zero-initialized. |
| Refinement.DecodeRefines | src/decode.rs:86-135 | From any reachable state an uninterrupted decode of the interleaved system ends as the decode method's contract says, with the same status, for every image and every malloc answer, touching no other struct or thread. |
| Refinement.FreeRefines | src/decode.rs:148-184 | The same for free. |
| Decode.Plugin.DecodeStaticRaster | src/decode.rs:35-139 | Ok means a struct, a non-empty path, frame 0, a file that reads whole within 4 bytes and 8 MiB and decodes, with published fields, entry and block agreeing and the block holding the decoded bytes. Any other request is InvalidArg whatever the file holds; read and decoder errors are passed through; an in-range image is OutOfMemory, Internal or Ok by malloc's answer and the mutex alone. On every status but Ok heap, registry and struct are as before. |
| Decode.InputIff | src/decode.rs:43-84 | A decode gets to an image exactly when the host passed a struct and a non-empty path, asked for frame 0, and the file at that path reads whole and decodes to it. |
| Decode.InputErrors | src/decode.rs:43-84 | InvalidArg for any malformed request whatever the file holds, then each read error, then the decoder's own. |
| Decode.DecodeErrorStatuses | src/types.rs:372-381 | Which decoder errors each status stands for, both ways; none is Ok. |
| Decode.PlacementOfInRangeImage | src/decode.rs:86-121 | An image of at most `i32::MAX / 4` by `i32::MAX` pixels that malloc can hold is placed, four bytes per pixel, exactly when malloc offers a free address and the mutex is sound. |
| Decode.Plugin.FreePixelBuffer | src/decode.rs:148-185 | Data, width, height and stride are always zeroed and the other fields kept. The block is unregistered and released exactly when its address is non-null, registered and the mutex is sound; otherwise memory is unchanged. Live equals registered is kept in all cases. |
| Decode.Allocator.Alloc | src/allocator.rs:22-25 | Null, or a block of the requested size at an address that was not live, all other blocks unchanged. |
| Decode.FreeAllRemoves | src/decode.rs:148-185 | Freeing any sequence of addresses, in any order, repeated, null or unknown, removes exactly the named registered buffers, and nothing behind a poisoned mutex. |
| Decode.DecodesThenFreesRestore | src/decode.rs:86-185 | Any successful decodes followed by frees of those buffers in any order restore the memory there was before. |
| Decode.DecodesGrowRegistry | src/decode.rs:112-121 | n successful decodes grow the registry by exactly n. |
| Utf16.LossyThenEncode | src/strings.rs:11-22 | Decoding and re-encoding any unit sequence keeps its length and every unit except unpaired surrogates, which become 0xFFFD. |
| Utf16.LossyIsExactIff | src/strings.rs:16-22 | Re-encoding gives the original back exactly for well-formed sequences. |
| Utf16.EncodeThenLossy | src/strings.rs:11-22 | Decoding undoes encoding for every string of scalar values. |
| Utf16.EncodeInjective | src/strings.rs:11-13 | Different strings have different encodings. |
| Utf16.EncodeOntoWellFormed | src/strings.rs:11-22 | Encodings are exactly the well-formed sequences and repairing twice changes nothing more. |
| Utf16.PairsInOrder | src/strings.rs:11-22 | Surrogate pairs enumerate U+10000 to U+10FFFF in order, as section 2.1 of RFC 2781 lays them out. |
| Utf16.StringRefRoundTripIff | src/types.rs:397-408 | A string survives a string reference if and only if it is non-empty and its unit count fits in i32. |
| Dimensions.ParsesExactlyTheGrammar | src/codec.rs:245-253 | The parser returns (w, h) if and only if the text reads as white space, optional plus, decimal w, white space, the first U+00D7 and a maximal digit run of value h, both at most `usize::MAX`. |
| Dimensions.NoSignNoDimensions | src/codec.rs:247 | A description without U+00D7 has no dimensions. |
| Dimensions.PrintedDimensionsReadBack | src/codec.rs:245-253 | Printed dimensions are read back, with any white space around the width, an optional plus sign before it, and any tail that does not start with a digit. |
| Dimensions.BlanksAndTabsAreSkipped | src/codec.rs:248 | Printed dimensions are read back with any blanks and tabs around the width. |
| Dimensions.ThreeDigitDimensions | src/codec.rs:245-253 | Every pair of three-digit numbers, written out character by character around U+00D7, is read as the two numbers, as the repository's descriptions are. |
| Dimensions.NeverPanics | src/codec.rs:247-250 | No description makes either string slice panic. |
| Dimensions.SlicesAtBoundaries | src/codec.rs:247-249 | The offset found is that of the bytes C3 97, and it and the offset two bytes on are character boundaries of the UTF-8 text. |
| Dimensions.BoundaryIff | src/codec.rs:248-249 | A byte offset can be sliced at exactly when its byte is not a continuation byte. |
| Dimensions.SlicesAreByteSlices | src/codec.rs:248-249 | Cutting characters at such an offset is cutting the UTF-8 bytes there. |
| Dimensions.ParseUsizeIff | src/codec.rs:248-251 | Integer parsing accepts exactly an optional plus sign and a decimal at most `usize::MAX`, though overflow is checked digit by digit. |
| Extensions.CanHandleExtension | src/codec.rs:105-142 | The loop answers 1 exactly when some known extension matches, and 0 for null, empty or uninitialised. |
| Extensions.LoopDecidesLowBytes | src/codec.rs:119-140 | With the two extensions stored at start-up, a match means the low bytes spell `.ithmb` or `.ipm` up to ASCII case. |
| Extensions.TruncationMattersIff | src/codec.rs:131-135 | A match on whole units is never missed. The loop matches exactly six or four units, each with the low byte of the letter of `.ithmb` or `.ipm` at its position in either case; such a match is false exactly when some unit is above 0xFF. |
| Extensions.NarrowUnitsAgree | src/codec.rs:131-135 | On units below 0x100 the loop decides as the documented comparison. |
| Extensions.TruncationCanMatter | src/codec.rs:131-135 | A sequence with a non-ASCII unit that is matched all the same. |
| Extensions.CaseDoesNotMatter | src/codec.rs:131-135 | Flipping the case of any subset of ASCII letters never changes the answer. |
| FileIo.ReadExact | src/file_io.rs:47-49 | Fills the buffer with the first bytes the file yields, or fails exactly when it ends or breaks before the buffer is full. |
| FileIo.ReadIthmbPrefix | src/file_io.rs:44-51 | The exact answer on every node, in terms of the full read and written out: IoError for nothing there or a node that does not open, DecodeFailed above 8 MiB or below four bytes, otherwise the first four bytes and the reported length. |
| FileIo.AnswersWrittenOut | src/file_io.rs:14-51 | Which error or content each of the two reads gives on each kind of node. |
| FileIo.ReadsExactly | src/file_io.rs:14-51 | On a regular readable file both reads succeed exactly from 4 bytes to 8 MiB, with the same status otherwise, and the prefix is the content's first four bytes and exact length. |
| FileIo.PrefixAgreesIff | src/file_io.rs:14-51 | On anything a path may lead to, the two reads report the same status unless it opens, cannot be read to its end, and is within the limit. |
| Metadata.LoadMetadata | src/codec.rs:170-242 | The exact status for every input, tier by tier; on Ok every field of the struct, the i32 casts of the first description's dimensions or else the profile's own, and for a regular file the full content's length; on any other status the struct is untouched. |
| Metadata.LookupByTier | src/codec.rs:190-213 | The first device description with dimensions decides, whatever the database says; without one, no database is Internal, an unknown prefix NotImplemented, and a profile gives its own signed width and height. |
| Metadata.FirstDimensionsIff | src/codec.rs:192-193 | The fast path takes the dimensions of the first description that has any. |
| Metadata.PrefixesDiffer | src/codec.rs:190 | Different four-byte prefixes are different format numbers. |
| Metadata.FormatNumberRoundTrip | src/codec.rs:190 | Every i32 is the format number of its four bytes, most significant first, in two's complement. |
| Metadata.FormatNumberValue | src/codec.rs:190 | The format number by the weights of its bytes, most significant first, less 2^32 when the first is at least 128. |
| Startup.AcceptedVersions | src/lib.rs:212-215 | The version check, dividing toward zero, accepts exactly 1000000 to 1999999. |
| Startup.AcceptsIff | src/lib.rs:212-229 | A host is accepted exactly with a version of 1000000 to 1999999, a non-null table, and a table at least as large as the plugin's. |
| Startup.StepKeepsInv | src/state.rs:134-221 | Every step of every racing caller keeps the order of the cells and the exclusivity of each closure. |
| Startup.FilledInOrder | src/state.rs:134-269 | However callers race, a filled capability points into a filled plugin state and extension table, never null; a caller holding a non-null API table finds every cell filled, the buffer registry included. |
| Startup.WriteOnce | src/lib.rs:87-241 | Filled cells never change; the host pointer is non-null, stays as first stored, and was passed by an earlier call of the run that met the version, null and size checks; get_codec and get_capability once Ok answer the same forever. |
| Startup.AcceptedCallsGetTheTable | src/lib.rs:208-244 | From any reachable state and in any race, after a call with an accepted version and host the caller is on its way or has returned the one non-null table, until it calls again. |
| Startup.SomeoneCanStep | src/state.rs:134-221 | Waiting for a cell never deadlocks. |
| Startup.SoloCall | src/lib.rs:208-244 | A caller running alone ends as the sequential entry point does. |
| EntryPoint.PluginStatics.EnsureInitialized | src/state.rs:134-221 | Fills the empty cells in order, keeps filled ones, and builds the capability from the plugin state. |
| EntryPoint.PluginStatics.GetApi | src/lib.rs:208-244 | With a version of 1000000 to 1999999, a non-null host and a large enough table: the one table, everything initialised, the first host pointer kept. Otherwise null and no change. |
| EntryPoint.PluginStatics.GetCodec | src/lib.rs:87-113 | InvalidArg for a null slot; null and Ok for every non-zero index; the codec table for index 0, or Internal with the slot untouched before initialisation; the same as the racing model's read. |
| EntryPoint.PluginStatics.GetCapability | src/codec.rs:34-55 | The status and the slot's content for a null slot, before and after initialisation. |
| FuzzHarness.NextStateBijective | src/decode.rs:371-378 | The three-shift step is a bijection on 64-bit words and only zero leads to zero. |
| FuzzHarness.NeverZero | src/decode.rs:370-378 | From a non-zero seed the state is never zero. |
| FuzzHarness.HarnessNeverZero | src/decode.rs:358-378 | From the harness's own seed the state is never zero. |
| FuzzHarness.XorShift64.Below | src/decode.rs:381-383 | Always under a positive bound, and the remainder of the next state. |
| FuzzHarness.Mutate | src/decode.rs:423-448 | Which edit each first draw chooses, at which place and with which bytes the next draws name, and how many draws each consumes, with every index in range. |
| FuzzHarness.MutateStack | src/decode.rs:471-476 | Any stack of mutations keeps the input within 1024 bytes and the generator away from zero. |

## Left out

- Which buffer a stale copy releases: free decides by address alone (`Decode.Frees`), so a copy that outlived its buffer names whatever buffer is registered at that address later. Nothing stronger is claimed.
- Panics and `catch_unwind`: poisoning is a step of the environment that may happen at any time; the call whose panic caused it is not followed further.
- The image decoder, the profile tables and the real file system: functions and values given from outside. Decoded data has four bytes per pixel, as the decoder promises.
- malloc's choice of address and the first contents of a block: parameters. Every answer a conforming malloc may give is the answer to some offered address; overlapping address ranges are not modelled, a block is identified by its first address.
- Weak memory: each store to the host's struct is one atomic step, and steps are interleaved in one order.
- Sequential `get_or_init` with a panicking closure, which would empty the cell again.
- Files without an end, and files that change between the metadata query and the read.
- Host logging, the log-text buffer of the extension query, the cancellation flag, struct layouts and function-pointer tables.
- The signature query, plugin_initialize, plugin_self_test and plugin_shutdown: one reading settles them.
- The fuzz harness's loop over the decoder and its seed inputs.
