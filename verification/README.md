# kv-rosetta, modelled and proved

kv-rosetta moves the key/value caches of language-model runtimes between processes and machines.
This project models the parts of it whose mistakes would be silent: the readers of the runtime's
state files, the law that predicts their size, the container and its segment table, the store of
admitted states, the import and restore protocols against a runtime's slot, the capture daemon,
and the planners around them. Every model follows the branches, constants and error cases of the
code; every claim below is proved for all inputs, all runs or all reachable states.

## How it is laid out

| file | what it holds |
|---|---|
| `Wrappers`, `Bytes`, `Sequences`, `Sorting` | results, little-endian fields, searching and filtering, Python's stable sort and string order |
| `GgsqReader`, `GgsqProperties` | the bounded readers of attention, recurrent and checkpoint sections, and what their spans tile |
| `GgsqWriter`, `GgsqStateWriter` | the same sections laid out field by field as the runtime writes them, and read back |
| `GgsqAccepts`, `GgsqAcceptsState` | the bytes each reader accepts, and as what, stated without the reader |
| `GgsqParser`, `GgsqParses`, `GgsqAgreement` | the second parser of the same body, the bytes it accepts, and its agreement with the first |
| `Envelope`, `Framing`, `AppendixScan` | the file envelope, the framing parser of the checkpoint appendix, what they report, the chunked scan for it |
| `Sizing`, `SizingChecks`, `SizeLaw` | the predicted sizes, when they are refused, and that they are the sizes the readers consume |
| `Quantise`, `BlockFormats` | q8_0 and q4_0, over exact reals: the error bounds, and the layout of a block |
| `Gguf`, `GgufValues` | the decoding reader, the skipping cursor and the key search; what the decoded values are |
| `Segments`, `Container`, `ContainerProperties`, `ContainerRoundTrip` | the segment table, the KVX container, its offset fixed point and its round trip |
| `ContainerWrites`, `ContainerChecks` | which file writing produces, and what the checks pass |
| `AdmittedStore`, `AdmittedStoreRuns`, `AdmittedDirectory` | the store as interleaved steps, what its runs keep, and the sequential class over those steps |
| `SlotServer`, `SlotImport`, `AdmittedPath` | a slot whose server may answer anything, and the two clients that restore into it |
| `CaptureLoop`, `CaptureTicks`, `CaptureHistory` | the daemon's tick over its fields, what one tick does, and theorems over runs of ticks |
| `Compose`, `ComposeProperties` | chain digests, plans, shared content, the cost of an edit |
| `PlePrefetch`, `PleHash` | hash rows to pages to runs; what the rows are |
| `Align`, `Retention` | byte alignment of tokenizations; budgeted retention |

Code that loops over updated variables is a method proved equal to a function, or to the property
the source promises; objects with changing fields are classes. The theorems are lemmas about those
functions. Digests, JSON and UTF-8 are function parameters. SHA-256 is assumed to have no
collision only where a lemma says so, and then only on the finitely many strings it compares.

## What turned out otherwise than documented

The code is modelled as it is; where it falls short of its own words the exact condition is proved.

- **One law or two.** `KVGeometry.layered` says sizing per layer adds nothing to the scalar law. It
  gives the same number exactly when there is at least one cell and the architecture is known to
  write no cell extension (`SizeLaw.UniformIsLayered`).
- **Sequence ids, empty appendices, transposed values.** The hybrid and the per-layer law count one
  sequence id per cell, no appendix for no checkpoints, and rows of whole blocks. A file is four bytes
  longer per further id and twelve longer with an appendix that has no records; where values are stored
  transposed and their type has blocks it is shorter, since an element's share of a block is cut to whole
  bytes (`SizeLaw.MissingExactly`, `SizeLaw.LostByType`). The exact conditions are `SizeLaw.HybridFileSize`
  and `SizeLaw.LayeredFileSize`.
- **Small scan blocks.** The chunked scan finds every magic for every file if and only if its block
  is at least three bytes (`AppendixScan.ScanIsExactFromThree`).
- **Framing cap.** The two appendix parsers agree up to 2^38 payload bytes in total and never beyond
  (`Envelope.DeepAndShallowAgree`).
- **Cut strings.** The decoder of GGUF headers accepts a string the file cuts short, and an empty
  array of an unknown type; the cursor refuses both. What decodes can be skipped if and only if it
  holds neither, at any depth (`Gguf.SkippableExactlyWhenWhole`), and the exhaustive search of a header
  that decodes succeeds if and only if moreover the key has one answer (`Gguf.SearchSucceedsExactly`).
- **Empty segments.** The neighbour check is exact for nonempty segments; with an empty one,
  acceptance depends on the order of the table (`Segments.EmptyRowsDependOnTableOrder`).
- **An earlier digest key.** A manifest with a `header_sha256` key that sorts before `integrity` is
  written with its digest in the wrong place and does not verify, however short that key's value is
  (`ContainerRoundTrip.WrittenVerifies`).
- **`verify` never raises.** It does, and exactly when is `ContainerRoundTrip.VerifyRaisesExactly`: where
  the parser does, and on an authentic header with an offset or a size that is no number or that seeking
  or reading refuses, or with a table of segments that cannot be iterated.
- **A changed file never resolves.** Facts once pinned never match a changed file again. But a
  second admission of a digest already stored renames first and pins afterwards, and a file
  rewritten between those two steps is pinned as it then is. Exactly which rewrites are caught is
  `AdmittedStoreRuns.RewriteHarmlessIffNotExposed`.
- **Admissions at once.** Temporary objects have names of their own, but all admissions of one digest
  write their manifest under one temporary name. An admission finds it gone and raises if and only if
  another renamed it and nobody opened it after that (`AdmittedStoreRuns.RenameFailsExactly`). The
  manifest left behind can be read if and only if something was written to its file since it was last
  opened and the last body written is no shorter than any before it
  (`AdmittedStoreRuns.ManifestLeftExactly`); `AdmittedStoreRuns.TogetherOneFails` is a schedule in which
  both go wrong. What resolves is right all the same.
- **Saved once.** No count of a model is saved in two ticks (`CaptureHistory.SavedOnce`), but one tick can
  save it twice; exactly when is `CaptureHistory.SavedTwiceExactly`.
- **Cleaning up after a refusal.** An import leaves the slot as it is when the restore fails, answers
  no numbers or restores nothing, when a probe is due and there are no token ids, when the probe fails
  or answers no numbers, and in two cases of numbers read late (`SlotImport.RefusalsThatCleanUp`). One of
  them is a plain artifact's declared token count: where it cannot be read an exception leaves the probe's
  token in the slot (`SlotImport.RefusalAfterProbeCleansUp`). An admitted restore whose coverage is not
  declared, or impossible, raises after the probe without erasing (`AdmittedPath.RaisesAfterProbeExactly`).
- **Rows longer than 4097 bytes.** Two pages hold such a row if and only if it begins early enough in
  its first page (`PlePrefetch.LongRowsAreNotCovered`).

## Model

| member | source | states |
|---|---|---|
| `Bytes.ToLe` | kv_rosetta/container.py:151-152 | a little-endian field of the given width, from which the same number is read back |
| `Bytes.WordExactly` | kv_rosetta/adapters/llamacpp_ggsq.py:103-110 | fields of four and eight bytes with the least significant byte first, and the sign of a field that has one |
| `GgsqReader.RowSizeInverse` | kv_rosetta/adapters/llamacpp_ggsq.py:44-64 | the stride recovers the width it came from and the width the stride, for every type and count |
| `GgsqReader.Reader.Take` | kv_rosetta/adapters/llamacpp_ggsq.py:78-89 | a bounded read: the bytes asked for and an offset moved past them, or a refusal that moves nothing |
| `GgsqReader.Reader.Skip` | kv_rosetta/adapters/llamacpp_ggsq.py:91-100 | the same bound, returning where the skipped bytes began |
| `GgsqReader.ReadAttentionSection` | kv_rosetta/adapters/llamacpp_ggsq.py:138-236 | the loops and the cursor compute the functional reading of one attention section, refusals included |
| `GgsqReader.MaterialiseSection` | kv_rosetta/adapters/llamacpp_ggsq.py:506-534 | one decoded entry per span in order, or the first span's refusal |
| `GgsqReader.ReadRecurrentSection` | kv_rosetta/adapters/llamacpp_ggsq.py:252-325 | the loops compute the functional reading of one recurrent section |
| `GgsqReader.ReadCheckpointAppendix` | kv_rosetta/adapters/llamacpp_ggsq.py:340-406 | the loops compute the functional reading of a whole checkpoint appendix |
| `GgsqProperties.AttentionLayout` | kv_rosetta/adapters/llamacpp_ggsq.py:156-236 | the spans tile the section behind its headers, keys of every layer first, then values, each of the size its layout of rows or columns gives |
| `GgsqProperties.AttentionTiling` | kv_rosetta/adapters/llamacpp_ggsq.py:156-236 | payloads are pairwise disjoint, separated by exactly a 12-byte header, and no two share a layer and kind |
| `GgsqProperties.AttentionComplete` | kv_rosetta/adapters/llamacpp_ggsq.py:190-236 | a layer and kind has a span if and only if the layer map holds the layer and the kind is key or value |
| `GgsqProperties.MaterialiseKeepsEverySpan` | kv_rosetta/adapters/llamacpp_ggsq.py:520-534 | materialising never overwrites: as many entries as spans, each decoded from its own payload by the heads and the head dimension its layer gives keys, or values |
| `GgsqProperties.MaterialisesExactly` | kv_rosetta/adapters/llamacpp_ggsq.py:520-534 | success if and only if the layout describes the layer of every span, every kind is key or value, and each decodes with its layer's geometry; else the first span that does not decides the refusal |
| `GgsqProperties.RecurrentLayout` | kv_rosetta/adapters/llamacpp_ggsq.py:252-325 | count, cells with their sequence ids (none when a single sequence is saved), counts and then the spans back to back to the section's end |
| `GgsqAccepts.SectionExactly` | kv_rosetta/adapters/llamacpp_ggsq.py:138-236 | the reader accepts bytes as an attention section if and only if they are one field by field: counts within their limits, cells with their sequence ids and extensions, the layers of the map, and every span's header and payload inside the section |
| `GgsqAcceptsState.RecurrentExactly` | kv_rosetta/adapters/llamacpp_ggsq.py:252-325 | the same for a recurrent section, under both settings of the sequence rule |
| `GgsqAcceptsState.AppendixExactly` | kv_rosetta/adapters/llamacpp_ggsq.py:340-406 | the same for a checkpoint appendix: magic, version, count, possible extents, a target that its recurrent section fills, empty buffers behind it, and nothing after the last record |
| `GgsqWriter.WrittenSectionIsRead` | kv_rosetta/adapters/llamacpp_ggsq.py:138-236 | round trip: a section laid out in writer order, anywhere in any file, reads back as its cells, layers and spans, and ends where it ends |
| `GgsqWriter.PayloadsComeBack` | kv_rosetta/adapters/llamacpp_ggsq.py:190-236 | each reported span holds exactly the payload written for its layer |
| `GgsqWriter.WrittenSectionIsParsed` | kv_rosetta/adapters/ggsq.py:119-247 | the second parser reads the same section out of the written bytes, or no stream when there are no cells |
| `GgsqStateWriter.WrittenRecurrentIsRead` | kv_rosetta/adapters/llamacpp_ggsq.py:252-325 | round trip of a recurrent section, with and without the single-sequence rule |
| `GgsqStateWriter.WrittenAppendixIsRead` | kv_rosetta/adapters/llamacpp_ggsq.py:340-406 | round trip of an appendix: every extent and every checkpoint state, in order, to the exact end |
| `GgsqParser.Parse` | kv_rosetta/adapters/ggsq.py:119-247 | the threaded offset and nested loops compute the functional parse of a body |
| `GgsqParses.ParsesExactly` | kv_rosetta/adapters/ggsq.py:119-247 | the second parser accepts a body as given streams if and only if its bytes are those streams field by field, transposed entries, empty streams and negative extensions included; what follows them does not matter |
| `GgsqAgreement.ParsersAgree` | kv_rosetta/adapters/ggsq.py:119-247 | whatever the bounded reader accepts, the second parser accepts with equal cells, positions, payload offsets and sizes, transposed values included |
| `Envelope.PeekIsEnough` | kv_rosetta/adapters/ggsq_envelope.py:337-357 | the 12-byte peek asks for exactly the envelope: that prefix parses to it and no shorter one parses |
| `Framing.EnvelopeExactly` | kv_rosetta/adapters/ggsq_envelope.py:106-157 | the envelope is read if and only if magic, version, count and words are there, and says what they are; the conditions of a wrong magic and a wrong version, and what the peek announces |
| `Envelope.ParseStream` | kv_rosetta/adapters/ggsq_envelope.py:416-466 | the loop over records and buffers computes the framing verdict at an offset |
| `Framing.FramedExactly` | kv_rosetta/adapters/ggsq_envelope.py:404-466 | the verdict on a candidate appendix: decided by its twelve bytes, or by as many whole records as there are of those announced; all and nothing more is usable, all and something more is none, fewer are cut or malformed as the first fault says |
| `Envelope.DeepAndShallowAgree` | kv_rosetta/adapters/ggsq_envelope.py:416-466 | an appendix the decoding reader accepts to the end of the file is 12 + 40 per record + its payloads, and framed as usable with that length and count exactly up to the total cap |
| `AppendixScan.ScanForMagic` | kv_rosetta/adapters/ggsq_envelope.py:540-561 | the block loop with its carried bytes computes the scan's list of offsets |
| `AppendixScan.ScanIsExactFromThree` | kv_rosetta/adapters/ggsq_envelope.py:540-561 | every offset of the magic, once each and increasing, for all files if and only if blocks hold three bytes or more |
| `AppendixScan.ParseCheckpointAppendix` | kv_rosetta/adapters/ggsq_envelope.py:469-500 | the first usable candidate, else the verdict on the refused ones |
| `AppendixScan.ScanFindsFirst` | kv_rosetta/adapters/ggsq_envelope.py:469-537 | scanning succeeds if and only if some offset holds a usable appendix, and returns the one at the least such offset |
| `Sizing.ComputeRowSize` | kv_rosetta/sizing.py:134-143 | the row size by type name |
| `Sizing.RowSizesAgree` | kv_rosetta/sizing.py:134-143 | the sizing table by name and the reader's table by id give one row size and refuse alike |
| `SizingChecks.RowSizeExactly` | kv_rosetta/sizing.py:134-143 | a row has a size if and only if its type is known and it is whole blocks, and then its share of what 32 elements of the type take; which of the two refusals it is otherwise |
| `Sizing.AttentionSectionBytes` | kv_rosetta/sizing.py:596-610 | the accumulating loop computes the section law |
| `Sizing.SlidingCellsAreKept` | kv_rosetta/sizing.py:574-593 | the count is how many positions lie less than a window behind the last |
| `SizingChecks.LayeredSizesExactly` | kv_rosetta/sizing.py:613-684 | the per-layer law gives a size if and only if the question has none of twelve faults, each stated on its fields, rows of layers without cells not asked for; otherwise it gives the first of them |
| `SizingChecks.HybridSizesExactly` | kv_rosetta/sizing.py:325-386 | the same for the hybrid law, whose rows are asked for even without cells |
| `SizingChecks.UniformSizesExactly` | kv_rosetta/sizing.py:192-227 | the same for the scalar law, for which a conditional cell extension is no fault |
| `SizeLaw.SectionOccupies` | kv_rosetta/sizing.py:596-610 | bytes consumed by the reader equal the section law, corrected by four per sequence id off one a cell and by what transposed values leave out of blocks; refused by the law exactly when columns are no whole blocks |
| `SizeLaw.MissingExactly` | kv_rosetta/adapters/llamacpp_ggsq.py:218-232 | a section loses nothing against the law if and only if it has no cells, stores rows, has no layers, or its type has no blocks |
| `SizeLaw.LostByType` | kv_rosetta/adapters/llamacpp_ggsq.py:218-232 | what a transposed layer of q8_0, q4_0 and f16 loses, byte for byte |
| `SizeLaw.UniformIsLayered` | kv_rosetta/sizing.py:120-131 | scalar and per-layer law agree if and only if there is a cell and no cell extension; the difference otherwise |
| `SizeLaw.RecurrentOccupies` | kv_rosetta/sizing.py:325-386 | a recurrent section of the geometry's shape takes the bytes the law counts |
| `SizeLaw.AppendixOccupies` | kv_rosetta/sizing.py:325-386 | an accepted appendix takes the bytes the law counts for its records, and twelve when it has none |
| `SizeLaw.HybridFileSize` | kv_rosetta/sizing.py:325-386 | the length of any file the four readers consume to its end, against the prediction: four bytes per sequence id off one a cell, twelve for an empty appendix, the loss of transposed blocks, the headers at zero cells; exact if and only if there is a cell and these make up for one another |
| `SizeLaw.LayeredFileSize` | kv_rosetta/sizing.py:613-684 | the same for envelope, base, sliding section and checkpoints of sliding sections, zero cells included; when the law has no size at all |
| `Quantise.Q8Bound` | kv_rosetta/adapters/llamacpp_ggsq.py:571-580 | codes within -127..127 and error at most the largest magnitude over 254 |
| `Quantise.Q4Bound` | kv_rosetta/adapters/llamacpp_ggsq.py:581-595 | codes within 0..15, error at most an eighth of the largest magnitude, a sixteenth unless clipped at 15, and the signed maximum recovered exactly |
| `Quantise.PackInverse` | kv_rosetta/adapters/llamacpp_ggsq.py:447-459 | packing low and high halves into bytes and unpacking is the identity on four-bit codes |
| `BlockFormats.Q8Exactly` | kv_rosetta/adapters/llamacpp_ggsq.py:571-580 | the scale is a 127th of the largest magnitude; each code is the nearest multiple of it, ties to even |
| `BlockFormats.Q4Exactly` | kv_rosetta/adapters/llamacpp_ggsq.py:581-595 | the scale is minus an eighth of the first value of largest magnitude; the code of element i is the low half of byte i, or the high half of byte i - 16, and is the quotient by the scale raised by 8, rounded and clipped at 15 |
| `BlockFormats.ReadsBack` | kv_rosetta/adapters/llamacpp_ggsq.py:447-459 | element i reads back as its code times the scale, four-bit codes 8 lower and from the same half of the same byte |
| `Quantise.TensorQ8Bound` | kv_rosetta/adapters/llamacpp_ggsq.py:537-597 | the bound for every element of a tensor of any number of blocks |
| `Quantise.TensorQ4Bound` | kv_rosetta/adapters/llamacpp_ggsq.py:537-597 | the same for q4_0, through packing and unpacking |
| `Gguf.Cursor.SkipValue` | kv_rosetta/gguf.py:174-192 | the cursor moves to where skipping a value of the type ends, or refuses |
| `Gguf.Handle.ReadValue` | kv_rosetta/gguf.py:103-131 | the handle decodes a value of the type and moves past it |
| `Gguf.ReadMetadata` | kv_rosetta/gguf.py:81-135 | the key loop computes the functional decode of a header |
| `GgufValues.ValueExactly` | kv_rosetta/gguf.py:103-131 | bytes decode as a value ending at an offset if and only if they are that value: scalars of their width, strings, arrays in file order, or only their length when longer than eight and not asked for |
| `GgufValues.MetadataExactly` | kv_rosetta/gguf.py:81-135 | the decode succeeds if and only if the header's keys do, and holds a name if and only if some entry has it and no parts were given or one occurs in it; its value is that of the last such entry |
| `Gguf.ReadStringKey` | kv_rosetta/gguf.py:195-252 | the search loop computes the functional search, early exit or exhaustive |
| `Gguf.WidthTablesAgree` | kv_rosetta/gguf.py:174-192 | the cursor's width table and the decoder's formats give the same widths |
| `Gguf.SkipStopsWhereReadStops` | kv_rosetta/gguf.py:103-192 | at any nesting of arrays, where skipping succeeds decoding succeeds and ends at the same byte, in any file |
| `Gguf.SkippableExactlyWhenWhole` | kv_rosetta/gguf.py:103-192 | what decodes can be skipped, to the same end, if and only if no string in it runs past the file and no empty array in it claims an unknown type, at any nesting |
| `Gguf.ReadAcceptsMore` | kv_rosetta/gguf.py:103-192 | the two kinds of damage at their smallest: decoded, not skipped, not whole |
| `Gguf.ThreeReadersAgree` | kv_rosetta/gguf.py:195-252 | a value the exhaustive search returns is returned by the early exit and recorded by the full decode |
| `Gguf.SearchSucceedsExactly` | kv_rosetta/gguf.py:195-252 | on a header the full decode accepts, the exhaustive search succeeds if and only if every name and value is whole and the key occurs, always as one and the same string |
| `Segments.Validate` | kv_rosetta/segments.py:147-181 | accepted exactly when every row is sound and sorted neighbours stand apart; otherwise the first bad row and its reason, or an overlapping pair |
| `Segments.ValidatesExactly` | kv_rosetta/segments.py:114-172 | rows pass if and only if none has one of fourteen faults, each stated on its fields; otherwise the first fault of the first faulty row is reported |
| `Segments.CheckRows` | kv_rosetta/segments.py:157-172 | the growing set of names finds the first row that is unsound or repeats a name |
| `Segments.CheckNeighbours` | kv_rosetta/segments.py:173-178 | the pass over sorted neighbours |
| `Segments.NeighbourCheckCoversAllPairs` | kv_rosetta/segments.py:173-178 | checking neighbours of the stable sort is, for sound rows, exactly checking every pair of the table |
| `Segments.AcceptedMeansDisjoint` | kv_rosetta/segments.py:147-181 | acceptance: no byte belongs to two rows, all bytes lie in the payload, names are distinct |
| `Segments.DisjointMeansAccepted` | kv_rosetta/segments.py:147-181 | with no empty row, accepted if and only if no byte is shared |
| `Segments.EmptyRowsDependOnTableOrder` | kv_rosetta/segments.py:173-178 | an empty row is refused after, accepted before, a full row at the same offset |
| `Container.ResolveOffset` | kv_rosetta/container.py:72-87 | the loop computes the settling of header and offset within its passes |
| `Sequences.Find` | kv_rosetta/container.py:45-56 | the first occurrence, or none at all |
| `Container.WriteSegments` | kv_rosetta/container.py:90-133 | placing, joining, validating and writing give the functional file or its refusal |
| `ContainerWrites.SegmentsExactly` | kv_rosetta/container.py:90-133 | refused exactly without parts, for a size that is not that of its data, for a name used twice or a part with a fault of its own; otherwise each part begins at the first block boundary behind the one before it, zeros fill the gaps, and the table says where each lies and its digest |
| `Container.Write` | kv_rosetta/container.py:136-157 | header sealed with its digest, framed, padded and followed by the payload |
| `ContainerWrites.WritesExactly` | kv_rosetta/container.py:136-157 | the one file written: magic, version, length, the header with the least offset that lands behind it and with its digest behind the first digest key, spaces to that offset, the payload; refused exactly when the header is too long for its length field |
| `Container.WriteOpaqueFromFile` | kv_rosetta/container.py:193-238 | streaming in chunks writes the file that writing the whole payload would; a chunk of 0 writes an empty payload, one below -1 is refused by the read |
| `Container.DrainLoop` | kv_rosetta/container.py:251-268 | counting down what remains yields the whole slice, an early end, or a refused read, for chunk sizes of every sign |
| `Container.Verify` | kv_rosetta/container.py:465-528 | the verdict of every check in order, segments and fields of a wrong type included, or an exception |
| `Container.ExtractPayload` | kv_rosetta/container.py:241-273 | the payload that hashes to its declared digest, or the error, for chunk sizes of every sign |
| `Container.ReadSegment` | kv_rosetta/container.py:317-338 | the first segment of that name, through absolute offsets and back, if its bytes fit its shape, a dimension of -1 included |
| `ContainerChecks.VerifiesExactly` | kv_rosetta/container.py:465-528 | a file verifies if and only if its header carries its own digest, the declared payload lies in the file on a block boundary and hashes to the declared digest, and in a segmented file the table is sound and every digest it records is that of its bytes |
| `ContainerChecks.ExtractsExactly` | kv_rosetta/container.py:241-273 | extraction yields bytes if and only if they are the declared ones and hash to the declared digest, whatever the encoding and chunk size; when it reports a mismatch and when a cut file |
| `ContainerChecks.ChangedPayloadIsRefused` | kv_rosetta/container.py:267-268 | of two files with one header and payloads of different digests at most one verifies and at most one extracts |
| `ContainerChecks.HeaderVerifiesExactly` | kv_rosetta/container.py:416-462 | the header check passes exactly an authentic header whose payload would end within the file, and never a segmented file |
| `ContainerChecks.OpensExactly` | kv_rosetta/container.py:400-413 | an artifact is mapped if and only if its payload lies in the file, and then holds exactly the declared bytes |
| `ContainerChecks.SegmentReadsExactly` | kv_rosetta/container.py:317-338 | the first row of the name decides: its slice of the payload, negative bounds and cut ends included, if its type is one of three and some number for its open dimension makes the shape hold the bytes; which refusal it is otherwise |
| `ContainerProperties.SettlesWithinThree` | kv_rosetta/container.py:72-87 | for every header that fits its length field the offset settles within three passes, at the least offset that describes its own header |
| `ContainerProperties.TwoPassesAreNotEnough` | kv_rosetta/container.py:72-87 | three passes are needed whenever the first header ends exactly on a block boundary |
| `ContainerWrites.DecimalExactly` | kv_rosetta/container.py:68-87 | the digits written for an offset are its decimal digits, with no zero in front |
| `ContainerRoundTrip.PlacementAlwaysValidates` | kv_rosetta/container.py:90-120 | a placed table is accepted exactly when its rows are sound alone and its names distinct: placement never fails geometry; the payload holds each part where its row says |
| `ContainerRoundTrip.SealedAgain` | kv_rosetta/container.py:136-149 | zeroing the stored header gives back the bytes that were hashed |
| `ContainerRoundTrip.WrittenExtracts` | kv_rosetta/container.py:241-273 | as long as the stored header still loads with its blob, a written payload comes back whole if and only if the chunk reads anything or there is nothing to read |
| `ContainerRoundTrip.WrittenVerifies` | kv_rosetta/container.py:136-157 | a written raw or opaque file verifies if and only if the integrity digest key is the first of its kind, whatever value an earlier one has, and never raises |
| `ContainerRoundTrip.SegmentsWrittenVerify` | kv_rosetta/container.py:465-528 | the same for a segmented file, every segment digest and the table digest included |
| `ContainerRoundTrip.SegmentRoundTrip` | kv_rosetta/container.py:317-338 | each tensor segment written is read back byte for byte under its name; an opaque one is refused |
| `ContainerRoundTrip.VerifyIsHeaderAndExtraction` | kv_rosetta/container.py:416-462 | unless segmented, a file verifies if and only if its header verifies and extraction succeeds |
| `ContainerRoundTrip.VerifyRaisesExactly` | kv_rosetta/container.py:465-528 | exactly which files make verification raise: where the parser does, where an authentic header's offset or size is no number or out of what seeking and reading take, or its table cannot be iterated |
| `ContainerRoundTrip.VerifyHeaderRaisesExactly` | kv_rosetta/container.py:416-462 | the header check raises where the parser does and where offset or size is no number, and nowhere else |
| `AdmittedStore.StepKeeps` | kv_rosetta/admitted_store.py:110-228 | every step of an admission, resolution, eviction, crash or permitted outside change keeps the store's invariant |
| `AdmittedStore.SealsExactly` | kv_rosetta/admitted_store.py:134-142 | an admission gets past its declarations if and only if the digest and the size declared, if any, are those of the bytes copied |
| `AdmittedStore.PinKeeps` | kv_rosetta/admitted_store.py:146-150 | facts taken in the window after a rename describe bytes that hash to the digest |
| `AdmittedStore.PublishKeeps` | kv_rosetta/admitted_store.py:143-146 | renaming over an existing object keeps every other actor's claim sound |
| `AdmittedStore.EvictObjectKeeps` | kv_rosetta/daemon/capture.py:527-534 | unlinking an object under concurrent admissions keeps the invariant |
| `AdmittedStoreRuns.ResolvedBytesHashToDigest` | kv_rosetta/admitted_store.py:180-228 | over every allowed run of interleaved steps, manifests opened, written and renamed among them, whatever resolves hashes to the digest asked for |
| `AdmittedStoreRuns.ChangedFileNeverMatches` | kv_rosetta/admitted_store.py:62-66 | a file changed after its facts were taken never has those facts again, in any run |
| `AdmittedStoreRuns.ExposureDeceives` | kv_rosetta/admitted_store.py:110-157 | from any exposed file, steps that end in resolving its content under the admission's digest |
| `AdmittedStoreRuns.RewriteHarmlessIffNotExposed` | kv_rosetta/admitted_store.py:110-228 | rewriting a file can deceive a later resolution if and only if it is an unpublished temporary file or an object between a rename of its digest and the taking of facts |
| `AdmittedStoreRuns.UndisturbedAdmissionResolves` | kv_rosetta/admitted_store.py:110-157 | an admission nobody interferes with resolves once finished and keeps resolving, amid any other steps |
| `AdmittedStoreRuns.RenameFailsExactly` | kv_rosetta/admitted_store.py:159-169 | over any run, an admission cannot rename its manifest if and only if another of its digest renamed it meanwhile and nobody opened it after that |
| `AdmittedStoreRuns.ManifestLeftExactly` | kv_rosetta/admitted_store.py:159-169 | over any run from the opening of a temporary manifest, it holds given facts, under either name, if and only if a body was written since it was last opened, the last one has them, and none before was longer |
| `AdmittedStoreRuns.RenameLeavesExactly` | kv_rosetta/admitted_store.py:159-169 | the same for the manifest a rename leaves behind |
| `AdmittedStoreRuns.TogetherOneFails` | kv_rosetta/admitted_store.py:159-169 | one schedule of two admissions: the second cannot finish, and the manifest holds what it wrote, or nothing readable if that was the shorter |
| `AdmittedDirectory.Store.Admit` | kv_rosetta/admitted_store.py:110-157 | success exactly when the declarations hold: the new object resolvable with the raw bytes, every other file kept and every other digest resolvable as before; a refusal leaves everything but the clock as it was |
| `AdmittedDirectory.Store.Resolve` | kv_rosetta/admitted_store.py:180-228 | success if and only if the address is full and the manifest can be read and has the object's facts; then the bytes hash to it |
| `AdmittedDirectory.AddressExactly` | kv_rosetta/admitted_store.py:187-189 | an address is sixty-four hexadecimal digits, letters in lower case |
| `AdmittedDirectory.AdmittedResolves` | kv_rosetta/admitted_store.py:110-228 | what an admission leaves then resolves under its digest to the admitted bytes, for every hexadecimal digest |
| `AdmittedDirectory.Store.ListObjects` | kv_rosetta/admitted_store.py:230-244 | exactly the digests that resolve, each once, in order of name |
| `SlotServer.Client.Post` | kv_rosetta/adapters/llamacpp_http.py:91-99 | each call is recorded and answered as the server pleases, given all calls so far |
| `SlotImport.Importer.Import` | kv_rosetta/adapters/llamacpp_http.py:677-962 | outcome and calls are those of the protocol, numbers that cannot be read included; the staged copy is gone on every path and no other file changes |
| `SlotImport.Importer.Pristine` | kv_rosetta/adapters/llamacpp_http.py:1001-1015 | erase and restore again, and one more erase if either fails |
| `SlotImport.SuccessHoldsThePayload` | kv_rosetta/adapters/llamacpp_http.py:814-962 | success: the last call is a confirmed restore of the verified staged payload, no completion after it |
| `SlotImport.SuccessProvesReuse` | kv_rosetta/adapters/llamacpp_http.py:814-945 | compound artifacts are always probed; reuse and reprocessing add up to the prompt, the tail is within its bounds, reuse equals declared coverage, restored checkpoints equal the manifest's |
| `SlotImport.RefusalAfterProbeCleansUp` | kv_rosetta/adapters/llamacpp_http.py:895-945 | an import that fails after a completed probe leaves the pristine payload or ends in an erase attempt if and only if the declared token count can be read; else the probe's token stays |
| `SlotImport.RefusalsThatCleanUp` | kv_rosetta/adapters/llamacpp_http.py:832-945 | in terms of artifact, request and answers: the guards under which an import ends without erasing or restoring, and that these are all |
| `SlotImport.SlotLeftUncleaned` | kv_rosetta/adapters/llamacpp_http.py:878-894 | for every artifact and request that get as far as a restore with a probe due there is a server with which the import fails and leaves the slot uncleaned |
| `SlotImport.NoCallBeforeVerification` | kv_rosetta/adapters/llamacpp_http.py:677-832 | a call that changes the slot is made if and only if every preflight check and the staging passed |
| `SlotImport.CallsExactly` | kv_rosetta/adapters/llamacpp_http.py:677-832 | on the fields of artifact, request and runtime: the slot is called if and only if the artifact verifies, the runtime is supported, every recorded digest is empty or the live or expected one, the formats are equal, the coverage conditions hold and the payload extracts; and the exact condition of each refusal before that |
| `SlotImport.EndsExactly` | kv_rosetta/adapters/llamacpp_http.py:832-962 | on the server's answers: when a staged import succeeds, when it ends with each of its refusals, and exactly which calls it made |
| `AdmittedPath.RestoreAdmitted` | kv_rosetta/adapters/admitted_path.py:225-360 | outcome and calls are those of the protocol |
| `AdmittedPath.RefusesExactly` | kv_rosetta/adapters/admitted_path.py:225-292 | when the slot is called at all, and each refusal before that: support, admission, ABI, prompt and weights, in this order |
| `AdmittedPath.RestoreEndsExactly` | kv_rosetta/adapters/admitted_path.py:293-360 | on the object, the answers and whether the caller stayed: when the restore verifies, when each refusal is given, when it raises, and exactly which calls were made |
| `AdmittedPath.VerifiedHolds` | kv_rosetta/adapters/admitted_path.py:293-360 | verified: reuse equals declared coverage and the rest was reprocessed; the slot holds the admitted bytes, plus the probe's token exactly when the caller was gone after the probe |
| `AdmittedPath.RefusalAfterProbeErases` | kv_rosetta/adapters/admitted_path.py:293-360 | a refusal after a completed probe ends in an erase attempt |
| `AdmittedPath.RaisesAfterProbeExactly` | kv_rosetta/adapters/admitted_path.py:320-330 | after a completed probe it raises if and only if no coverage is declared or reuse equals an impossible declared coverage |
| `AdmittedPath.AllowanceNeverBinds` | kv_rosetta/adapters/admitted_path.py:48-67 | a declared coverage leaves no tail beyond the allowance, so the upper bound decides nothing; without one the allowance is the least from the fixed tail on that is a hundredth of the tokens |
| `CaptureLoop.Restorable` | kv_rosetta/daemon/capture.py:327-339 | the first slot that is idle and empty, none if there is none, or an exception if that slot cannot be read |
| `CaptureLoop.Daemon.RunTick` | kv_rosetta/daemon/capture.py:246-312 | the daemon's fields after a tick, its events and whether it aborted, an unreachable runtime, broken slots and unreadable answers included, are those of the tick function |
| `CaptureLoop.Daemon.RestoreFreshSlots` | kv_rosetta/daemon/capture.py:170-224 | the restore pass over all loaded models, up to the first that raises |
| `CaptureLoop.Daemon.CaptureCandidate` | kv_rosetta/daemon/capture.py:259-312 | one candidate: skipped, parked, refused, or saved and offered for admission |
| `CaptureTicks.ForgetsExactly` | kv_rosetta/daemon/capture.py:246-254 | a warmed slot is forgotten if and only if it is polled holding something |
| `CaptureTicks.RestoresExactly` | kv_rosetta/daemon/capture.py:170-224 | one attempt for every model whose first empty slot is neither warmed nor refused, nothing else, with the event and the bookkeeping its answer calls for; when the pass raises |
| `CaptureTicks.StagesExactly` | kv_rosetta/daemon/capture.py:246-258 | what a tick has done before it saves anything, and exactly when it gets no further |
| `CaptureTicks.ConsidersExactly` | kv_rosetta/daemon/capture.py:49-80 | the candidates are the idle slots with enough tokens and a count not seen, biggest first, and nothing else; when choosing raises |
| `CaptureTicks.SavesExactly` | kv_rosetta/daemon/capture.py:259-312 | each candidate reached is saved if and only if it has no earlier capture, or its count is below half of it or at least six fifths, and the save is answered; otherwise skipped, parked or refused as the counts and the answer say; and what the daemon then remembers and counts |
| `CaptureHistory.RestoresAreSeparated` | kv_rosetta/daemon/capture.py:170-258 | between two successful restores into one slot of a model some tick polled it nonempty |
| `CaptureHistory.RefusedRestoreWaitsForAdmission` | kv_rosetta/daemon/capture.py:196-224 | a refused restore is not tried again before something is admitted for that model |
| `CaptureHistory.SavedOnce` | kv_rosetta/daemon/capture.py:49-70 | no model and token count is saved in two different ticks |
| `CaptureHistory.SavedTwiceExactly` | kv_rosetta/daemon/capture.py:246-312 | a tick saves a count of a model twice if and only if nothing raises before and two of its candidates have that count, have no earlier capture or a count below half or from six fifths of it on, and have their saves answered |
| `CaptureHistory.OneTickMaySaveTwice` | kv_rosetta/daemon/capture.py:259-312 | one tick can save the same count from two slots |
| `CaptureHistory.OnlyIdleSlotsAreTouched` | kv_rosetta/daemon/capture.py:38-89 | a restore goes into a slot polled idle and empty, a save to one polled idle with at least the minimum, in the same tick |
| `CaptureHistory.CapturesFormAChain` | kv_rosetta/daemon/capture.py:371-386 | over a run, consecutive captures of a slot grow by a fifth or fall below half, and the daemon remembers the last |
| `CaptureHistory.ChurnIsLogarithmic` | kv_rosetta/daemon/capture.py:371-386 | k further captures without a halving force (6/5)^k times the minimum below the context size |
| `Compose.MakePlan` | kv_rosetta/compose.py:143-202 | the loop computes the functional plan or the first refusal |
| `Compose.Appendable` | kv_rosetta/compose.py:205-216 | true exactly when the addition records the chain digest of everything before it |
| `Compose.ChainsAgree` | kv_rosetta/compose.py:102-112 | without collisions, equal chain digests mean the same token digests in the same order |
| `ComposeProperties.PlanExactly` | kv_rosetta/compose.py:143-202 | a plan exists if and only if the regions are sound, distinct and contiguous from 0 and need no repair that was not allowed; what each placement and total then is |
| `ComposeProperties.ExactIffSameLeftContext` | kv_rosetta/compose.py:155-190 | a region is exact if and only if the token digests before it are those it was prefilled behind |
| `ComposeProperties.AppendableIffNoRepair` | kv_rosetta/compose.py:205-216 | appendable if and only if appending adds no repair |
| `ComposeProperties.IdBytesInjective` | kv_rosetta/compose.py:51-63 | the bytes hashed for two id sequences are equal only for equal sequences |
| `ComposeProperties.ContentRegions` | kv_rosetta/shared.py:112-120 | regions in order, each starting where the last ended and recording the chain before it |
| `ComposeProperties.ContentAlwaysPlans` | kv_rosetta/shared.py:112-120 | content plans without repair and covers every token, if and only if its entries are sound and distinct |
| `ComposeProperties.EditInvalidatesExactlyWhatFollows` | kv_rosetta/compose.py:155-190 | changing region i's tokens leaves exact the regions up to i and no other, and costs the tokens after it |
| `PlePrefetch.RowsForToken` | kv_rosetta/ple_prefetch.py:110-131 | the loops over context, n-gram sizes and heads compute the hash rows, or fail exactly on a head of size zero |
| `PlePrefetch.RowsForSequence` | kv_rosetta/ple_prefetch.py:134-141 | the sliding window gives the rows of the full prefix |
| `PleHash.HashExactly` | kv_rosetta/ple_prefetch.py:110-131 | the hash is the one number below 2^64 each bit of which is the parity of that bit over the products of the token and its predecessors, cut at an end token, with their multipliers modulo 2^64 |
| `PleHash.TokenRowsExactly` | kv_rosetta/ple_prefetch.py:110-131 | the row of every n-gram size and head is the head's offset plus that hash of the last n tokens modulo the head's size |
| `PleHash.SequenceRowsExactly` | kv_rosetta/ple_prefetch.py:134-141 | the rows of a sequence are, token by token, those of the token behind all its predecessors |
| `PlePrefetch.WindowIsEnough` | kv_rosetta/ple_prefetch.py:110-141 | only the last ngram - 1 predecessors matter |
| `PlePrefetch.RowsSplitAtEos` | kv_rosetta/ple_prefetch.py:110-141 | rows of a ++ [EOS] ++ b are those of a ++ [EOS] followed by those of b |
| `PlePrefetch.RowsInHeads` | kv_rosetta/ple_prefetch.py:124-131 | the h-th row lies in head h's part of the table |
| `PlePrefetch.RowsInTable` | kv_rosetta/ple_prefetch.py:134-141 | one row per token and head, all inside the table |
| `PlePrefetch.PagesForRows` | kv_rosetta/ple_prefetch.py:247-258 | refused exactly when a row lies outside; otherwise the first and last pages of the rows, each once, increasing |
| `PlePrefetch.RowPagesCover` | kv_rosetta/ple_prefetch.py:247-258 | two pages hold a row if and only if its ends lie in the same or neighbouring pages, as they do up to 4097 bytes |
| `PlePrefetch.LongRowsAreNotCovered` | kv_rosetta/ple_prefetch.py:247-258 | a row beyond 4097 bytes is covered if and only if it and what precedes it in its first page fit in two pages |
| `PlePrefetch.Coalesce` | kv_rosetta/ple_prefetch.py:261-269 | unfolding the runs gives back the pages in order, and no run ends where the next begins |
| `PlePrefetch.RunsHoldThePages` | kv_rosetta/ple_prefetch.py:261-269 | a byte is advised if and only if some page holds it |
| `PlePrefetch.RunsOfOrderedPages` | kv_rosetta/ple_prefetch.py:261-269 | ordered pages give ordered, disjoint runs with gaps between them |
| `PlePrefetch.EveryRowIsAdvised` | kv_rosetta/ple_prefetch.py:341-356 | every byte of every row, at the table's offset plus row number times row size, is advised, for rows of up to 4097 bytes |
| `PlePrefetch.NothingElseIsAdvised` | kv_rosetta/ple_prefetch.py:341-356 | every advised byte lies in the page of the first or the last byte of some row |
| `Align.ByteSpans` | kv_rosetta/mappers/align.py:48-71 | spans tile the text; refused exactly for no pieces or an empty one, the first named |
| `Align.AlignTokens` | kv_rosetta/mappers/align.py:95-123 | success exactly for nonempty pieces of one text, with each weight the shared bytes over the target's length |
| `Align.RowSumsToLength` | kv_rosetta/mappers/align.py:111-122 | overlaps of a target token add up to its length |
| `Align.ColumnSumsToLength` | kv_rosetta/mappers/align.py:111-122 | overlaps of a source token add up to its length |
| `Align.WeightsSumToOne` | kv_rosetta/mappers/align.py:111-122 | weights of a target token sum to one |
| `Align.Staircase` | kv_rosetta/mappers/align.py:111-122 | later target tokens never overlap earlier source tokens |
| `Align.FewOverlaps` | kv_rosetta/mappers/align.py:111-122 | at most S + T - 1 pairs overlap |
| `Align.SameTokensAlignAsIdentity` | kv_rosetta/mappers/align.py:111-122 | equal tokenizations give the identity matrix |
| `Retention.PlanRetention` | kv_rosetta/retention.py:66-110 | success exactly for a nonnegative budget, sound distinct entries and pins that fit; the plan is the greedy one by recency and digest |
| `Retention.PlannableExactly` | kv_rosetta/retention.py:66-90 | what can be planned: a nonnegative budget, entries of positive size under distinct full digests, and pins that fit |
| `Retention.AdmitOrRefuse` | kv_rosetta/retention.py:113-137 | a returned plan keeps the candidate; exactly when it is refused as unsound, as too large, and as not kept |
| `Retention.PlanPartitions` | kv_rosetta/retention.py:93-110 | keep and evict partition the digests, every pin is kept, kept bytes are their sum and within budget |
| `Retention.PlanDecides` | kv_rosetta/retention.py:93-110 | an entry is kept if and only if pinned or chosen, evicted if and only if unpinned and passed over, never both |
| `Retention.EvictedForARoom` | kv_rosetta/retention.py:97-110 | an evicted entry exceeds the final headroom and is larger than every less recent unpinned entry kept |
| `Retention.ReasonsAreTrue` | kv_rosetta/retention.py:66-110 | the reason given for every entry is true of it: pinned, kept, or evicted for a room smaller than it and no smaller than the one left at the end |
| `Retention.OrderDoesNotMatter` | kv_rosetta/retention.py:93-110 | permuting the input changes neither the eviction list nor the kept set and bytes nor any reason |
| `Retention.ReplanningEvictsNothing` | kv_rosetta/retention.py:93-110 | planning the kept entries again evicts nothing and keeps them all |

## Left out

- HTTP, sockets, subprocess servers, command lines and the daemon server: a runtime is a slot that answers restore, erase and completion calls in any way.
- `gate.py`, `metrics.py`, `mappers/linear.py`, `mappers/rope.py`, `adapters/hf.py`, `store.py`, `hybrid_schema.py`, `requirements.py`, `manifest.py`, `identity.py`, `transfer.py`, `weights.py`, `daemon/budget.py`: linear algebra, statistics, a deprecated store and single-branch field checks.
- Rounding to half and single precision, NaN and infinity: scales, values, weights and times are exact reals; `convert_dtype` and the f16, bf16 and f32 paths of `dequantise` are not modelled.
- Texts of error messages: refusals are enumerations, with the position where the source gives one.
- `detect`, `parse_buffer_envelope`, `decode_prompt_tokens`: single-branch classification next to the file envelope.
- `_tensor_infos`, `locate_table`, `advise`, `residency`: finding the table and calling the kernel; the table is given by offset, rows and bytes per row.
- `Segment.from_dict` and the `quant` and `position` fields: a malformed entry is a malformed table, and the two fields are carried but never read.
- `prune_model_artifacts` chooses which objects go by model, age and pins; in the model any object may be evicted at any time.
- `restore_score` and `rank_restore_candidates`: real exponentiation, and a sort by it.
- `SharedDrive`: files and metadata around content whose regions are modelled.
- SlotImport.Importer.Import: what is learned of the runtime beforehand is an input; to learn its format the source may save the slot to a file, which changes nothing in it.
- AdmittedPath.AllowanceNeverBinds: one percent is taken exactly, where the source multiplies by a double.
- AdmittedStoreRuns.ResolvedBytesHashToDigest: a manifest's body is written in one step and nobody outside rewrites manifests; durability, ownership, modes and symbolic links are not modelled; safety only, since an eviction racing an admission may leave a digest without manifest.
- CaptureLoop.Daemon.RunTick: growth thresholds are exact fractions, where the source multiplies doubles.
- AdmittedPath.RestoreAdmitted: checkpoint fields of a manifest or an answer are integers or absent.
