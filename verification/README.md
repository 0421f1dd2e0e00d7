# Verification of archivindex-warc

A Dafny model of the core of archivindex-warc, a library that reads, writes, merges and describes web
archives (WARC files, ISO 28500:2017), with proofs of what its parts promise together. Each module
models one component, in the form the component has: `Reading`, `MemberReader`, `Counted`,
`WarcWriter`, `Pass`, `Lifter` and `Renderer` are classes whose methods are proved against functions
of the octets or records they work on, and the laws of the library are lemmas about those functions.

- **Header blocks** (`Parsing`, `Unfolding`, `Raw`, `RawRoundTrip`): parsing and printing a header
  block are inverse to each other, and validation accepts just the headers that have a printed form.
- **The reader** (`Framing`, `Sources`, `Bounded`, `Placements`, `Reader`, `Iterators`): a stream hands
  out its octets in chunks of any size. `Framing` says what reading yields as functions of the octets
  alone; the line reader, the two body readers, the reader of gzip members and the state machine of
  `Reading`, with its read-ahead and its pending errors, are proved to yield exactly that, so the
  outcome depends neither on the chunks nor on where members split.
- **Frames and placements** (`Members`, `RecordText`, `Frames`, `Exactness`, `Index`): what the frame of
  a record covers, and when reading a frame gives the record back. `Failures` holds the streams on
  which it does not.
- **Archives and the writer** (`Archive`, `GzipArchive`, `Writer`, `Sessions`): what a session of the
  writer stores, failures of the sink included, reads back as the records it accepted, each in the
  frame it reported.
- **Merging** (`Headers`, `MergePlan`, `MergePass`, `MergeMeaning`, `MergeFacts`, `MergeBodies`,
  `MergeReading`, `Merging`): the two passes over their streams, the association between a record and its warcinfo record they preserve,
  and when the order a hash map happens to have does not show. `SharedNames` holds a merge in which it does.
- **Values** (`MediaType`, `MediaTypeRoundTrip`, `Radix`, `BaseEncoding`, `Digest`, `Date`,
  `DateRoundTrip`, `Identity`): media types, labelled digests (sections 4 to 6 and 8 of RFC 4648),
  dates, and the preimage of a record's identity.
- **The semantic layer** (`Lens`, `LensNames`, `LensRoundTrip`, `Lifting`, `Rendering`, `LensLaw`, `FormCodec`):
  lifting a header into typed fields and rendering it back undo each other, given a law of the
  value grammars, which `FormCodec` then proves of them. `Reordering` holds a header that does not
  come back as it was.

## Hypotheses and exact conditions

Where a promise does not hold of every input, the code is modelled as it is and the condition under
which the promise holds is part of the theorem.

- Skipping a body is documented to check it exactly as reading does (`src/io/read.rs:720-725`). A
  source that fails as `UnexpectedEof` inside the record's terminator is nevertheless reported as a
  truncated body when skipped and as a failed source when read, and a length too large to buffer is
  refused only when read. `Framing.SkipsSafely` is the exact condition for the two to agree,
  `Failures.FilteringHidesFailure` the streams of one record on which filtering and selecting differ,
  and `Framing.FilteringIsSelection` shows that filtering is plain iteration and selection just when
  every skipped body satisfies it.
- A window over a plain stream still asks the stream for octets at its limit. The frame of a record
  that ends where the stream fails therefore reads as that failure: `Frames.PlainFrameIsSound` is an
  equivalence, and so is `Index.PlainRunIsIndexed`, by which only the last record of a stream can be
  such a one.
- The same holds of the compressed source of a gzip stream. One that fails where the last member ends
  leaves that member's record whole and framed, and the frame then reads as the failure
  (`GzipArchive.FailingSourceHidesLast`).
- When a decoder fails inside a gzip member, the position falls back to the end of the member before.
  A record in such a member is given a frame that does not hold it (`GzipArchive.BrokenMemberMisplaces`),
  and the count of its members is one short (`Exactness.MembersAreCounted`).
- `Frames.GzipFrameReads` gives the exact condition for a frame of a gzip stream to read back, and
  `Index.GzipRunIsIndexed` carries it to every record of a stream. Where no member breaks off, every
  frame reads back but one that ends where the source fails (`Index.WholeMembersAreIndexed`).
- A digest value of fewer than three octets fits more than one encoding
  (`BaseEncoding.ShorterIsAmbiguous`); every known algorithm is longer.
- The merge plan is the same for every order the hash map may hand out its groups in, exactly when no
  identifier is dropped in favour of two different ones (`MergeFacts.PlanIsDetermined`). References to
  copies of a warcinfo record resolve to the copy kept exactly when whatever shares the identifier of
  a dropped record is kept under the same one (`MergeMeaning.RedirectsResolve`). Two files whose second
  gives one identifier to copies of two records of the first meet neither condition
  (`SharedNames.SharedNameIsAmbiguous`, of valid records in `SharedNames.LettersAreAmbiguous`).
  Preservation of association assumes what clause 5.2 of WARC 1.1 requires, that identifiers are unique
  but for copies of one record: without it, which record a name belongs to is not settled in the inputs
  either.
- A merge writes valid records, and its output reads back exactly when no rewriting has made a header
  block larger than the reader takes (`Merging.MergedReadsBack`).
- Rendering a record whose type is not one of the standard's may move the standard fields it keeps
  among its others: `Reordering.ExtensionTypesAreReordered` has the headers that lift and render, under
  any lawful codec that claims their type, and says which of them come back as another record;
  `Reordering.ListedIsReordered` is one that does, under the library's grammars.
  `LensLaw.LiftAndRenderUndo` states when any record comes back unchanged, as an equivalence.
- A record can be read back when its header block is at most 1048576 octets and its body length plus
  four fits 64 bits; `RecordText.TextIffRendering` shows that these, with validity, are the exact limits.

## Model

| member | source | states |
|---|---|---|
| Parsing.SplitFieldLine | src/parsing.rs:56-71 | the loops find the one split of a line into a token, white space and a colon, and find none just when there is none |
| Parsing.StrayLineBreak | src/parsing.rs:83-101 | reports the first line break that opens no fold, and none exactly when every `CR` and `LF` belongs to a fold |
| Parsing.Unfold | src/parsing.rs:194-218 | the loop, whose skip over the octet after a `CR` is unchecked, computes the unfolded value of every input |
| Unfolding.TrimKeepsFolds | src/parsing.rs:221-232 | trimming a folded value cuts no fold apart |
| Unfolding.UnfoldIsNormalForm | src/parsing.rs:83-101 | an unfolded value has no line break and no outer white space, and unfolding it again changes nothing |
| Unfolding.FoldBecomesOneSpace | src/parsing.rs:194-218 | an interior fold becomes one space, however much white space follows its line break |
| Raw.Parse | src/parse/raw.rs:93-154 | the cursor loop computes the parse of a block, errors included |
| Raw.ParseField | src/parse/raw.rs:93-154 | the part of the loop that follows a field across its folded lines, with its errors |
| Raw.Validate | src/parse/raw.rs:183-203 | the loop that tracks the declared length finds the first fault of a header, or its length |
| Raw.RenderedLength | src/parse/raw.rs:207-217 | the length counted without printing is that of the printed block |
| RawRoundTrip.ParseInvertsRender | src/parse/raw.rs:93-154 | every header that validates is read back from its printed form, with its declared length |
| RawRoundTrip.RenderInvertsParse | src/parse/raw.rs:235-255 | every block that parses is printed back octet for octet and validates to the same length |
| RawRoundTrip.ParseAcceptsExactlyTheRendered | src/parse/raw.rs:93-255 | the blocks that parse are exactly the printed forms of the headers that validate, and no two headers print alike |
| RawRoundTrip.ValidateIsDeclares | src/parse/raw.rs:183-203 | validation accepts exactly the headers whose names are tokens, whose values are folded, and that declare one well-formed length |
| Sources.Counted.FillBuf | src/io/mod.rs:69-74 | offers a nonempty prefix of what the window has left, or its end or failure |
| Sources.Counted.Consume | src/io/mod.rs:76-79 | advances the position by what is taken of the last offer |
| Sources.Counted.Window | src/io/mod.rs:40-46 | a window shows the octets of a frame alone |
| Sources.OffersWithin | src/io/mod.rs:69-74 | an offer of a stream, cut off at a limit, is an offer of the window up to that limit |
| Sources.MemberReader.Open | src/io/gzip.rs:112-145 | opens the next member, ends the stream where nothing follows or the window ends, or fails where the source does |
| Sources.MemberReader.Window | src/io/gzip.rs:63-79 | a reader bounded by the octets of some members reads those, and still meets a source that fails at its limit |
| Sources.MemberReader.Decode | src/io/gzip.rs:112-145 | the next chunk of the member's contents, its end, or the failure of a broken tail |
| Sources.MemberReader.Refill | src/io/gzip.rs:112-145 | the loop leaves the buffer empty only at the end of the stream, and fails only where the members or their source do |
| Sources.MemberReader.FillBuf | src/io/gzip.rs:148-155 | offers the next octets of the concatenated contents, empty members and chunks of any size included |
| Sources.MemberReader.Consume | src/io/gzip.rs:157-159 | advances by what is taken of the last offer |
| Sources.MemberReader.Position | src/io/gzip.rs:85-107 | locates the next octet: its member, whether it begins it, and how many members hold octets up to it; moves past nothing |
| Members.PositionOf | src/io/gzip.rs:85-107 | the position of an octet is the compressed offset of the member that holds it, a boundary just at its first octet |
| Members.PositionsAscend | src/io/read.rs:118-133 | positions never go back, so no subtraction between two of them underflows |
| Bounded.ReadLineBounded | src/io/read.rs:642-675 | the outcome is a function of the octets, however they are split; just those consumed are appended, never past the limit |
| Bounded.ReadBody | src/io/read.rs:684-718 | the body and its terminator, or the fault, as a function of the octets; a body read leaves the reader right after it |
| Bounded.ReadExact | src/io/read.rs:726-753 | exactly the next octets, or the failure of the source, however it splits them |
| Bounded.SkipBody | src/io/read.rs:726-753 | the outcome of skipping, as a function of the octets; on success the reader stands where reading would leave it |
| Framing.SkipMatchesRead | src/io/read.rs:684-753 | skipping a body agrees with reading it exactly under a condition on where the source fails |
| Framing.FilteringIsSelection | src/io/read.rs:1032-1064 | at every level, filtering yields what plain iteration restricted to errors and accepted headers does, exactly when the skipped bodies are skipped safely, for filters that remember too |
| Reader.Reading.NoteBoundary | src/io/read.rs:861-885 | at a boundary, the placement of the record before the padding is extended through the members ended so far |
| Reader.Reading.ReadPastPadding | src/io/read.rs:861-885 | counts the whole blank lines before a record and extends the last placement to the last boundary among them |
| Reader.Reading.ReadHeaderBlock | src/io/read.rs:893-924 | the header block up to its blank line, a clean end before it, or its fault |
| Reader.Reading.ReachHead | src/io/read.rs:930-965 | what was read ahead, padding and pending error included, is what reading now would meet |
| Reader.Reading.HeaderAfter | src/io/read.rs:930-965 | after the first line, the header and where its body begins, the clean end, or the fault |
| Reader.Reading.NextHeader | src/io/read.rs:930-965 | the next header whatever was read ahead; only a clean end sets `ended`; a finished reader changes nothing |
| Reader.Reading.EndRecord | src/io/read.rs:972-987 | the length and the placement of the record just read, found by reading ahead past the blank lines after it |
| Reader.Reading.Finish | src/io/read.rs:990-993 | stops for good; positions around an error item do not underflow |
| Reader.Reading.ReadRecordBody | src/io/read.rs:996-1003 | the body or the fault of the octets; a fault ends the stream, a body ends the record |
| Reader.Reading.SkipRecordBody | src/io/read.rs:1006-1013 | the same for a body that is not kept |
| Reader.Reading.NextRecord | src/io/read.rs:1016-1026 | refines one step of reading the octets: item, blank lines, offset and next boundary; fused after an error or the end, for which `end` is then absent, or present and located |
| Reader.Reading.NextFiltered | src/io/read.rs:1032-1073 | the filter loop terminates and yields the next located item of the specified filtering, a body failure taking precedence over a header's; a filter that remembers is asked once about each header read, in order; unless the stream ends there is less left to read |
| Iterators.RawIter.Next | src/io/read.rs:1092-1100 | one step of a plain or a gzip stream, records and the clean end located; every item but the last leaves less to read |
| Iterators.RawIter.Collect | src/io/read.rs:1092-1100 | reading to the end terminates and gives a complete sequence of located items |
| Iterators.RunYieldsItems | src/io/read.rs:1016-1026 | what is collected are the items of the stream, one for one |
| Iterators.GzipReadsAsPlain | src/io/read.rs:930-987 | a gzip stream yields the values and blank-line counts of its concatenated contents, for all members, empty ones included, and all chunks |
| Iterators.OnlyRecordOf | src/io/read.rs:554-566 | reading one record of a window refuses an empty one, and one that holds more than a record and blank lines |
| Iterators.RawRecordAtPlain | src/io/read.rs:554-600 | reads the octets of the frame alone |
| Iterators.RawRecordAtGzip | src/io/read.rs:554-600 | reads the members of the frame alone, and meets a source that fails where they end |
| RecordText.StepReadsText | src/io/read.rs:1016-1026 | a record is read from its own octets alone, right after the blank lines before it |
| RecordText.StepOverText | src/io/read.rs:861-1026 | the octets of a record, after blank lines and before anything, are the next item read, with that many blank lines counted |
| RecordText.TextIffRendering | src/parse/raw.rs:301-307 | the octets read as a record are exactly what writing it emits, for exactly the records that validate within the limits |
| Frames.PlainFrameIsSound | src/io/read.rs:554-566 | the frame of a record read from a plain stream reads back as it, exactly unless the stream fails where the frame ends |
| Frames.OnlyRecordIsFramed | src/io/read.rs:554-566 | a window read as a record holds its written form with whole blank lines around it, and nothing else |
| Frames.GzipFrameReads | src/io/read.rs:161-172 | a frame covers complete members, and reads back exactly when these reach past the record over whole blank lines and the source does not fail where they end; where no member breaks off, the failing source is the only exception |
| Frames.LastBoundaryMeaning | src/io/read.rs:861-885 | the boundary kept while reading past padding is the last one that whole blank lines alone lead to |
| Exactness.PlacementIsExact | src/io/read.rs:118-133 | the offset is the member of the record's first octet, `begins` tells whether whole blank lines alone precede it there, and the length reaches the last boundary whole blank lines alone separate from it, or is absent when there is none |
| Exactness.MembersAreCounted | src/io/read.rs:118-133 | `members` counts just the members that hold octets of the record, exactly unless the record ends where a broken tail does, which is one short |
| Index.PlainRunIsIndexed | src/io/read.rs:554-566 | each record read from a plain stream is read again by its frame, exactly unless the stream fails where that ends, as only its last record can |
| Index.GzipRunIsIndexed | src/io/read.rs:554-566 | each record read from a gzip stream that has a frame is read again by it, wherever members split and blank lines fall, exactly when the members of the frame close the record |
| Index.WholeMembersAreIndexed | src/io/read.rs:554-566 | where every member decodes to its end, every frame finds its record, exactly unless the source fails where the last member and the frame end |
| Archive.ArchiveReadsBack | src/io/read.rs:1016-1026 | writable records with any blank lines between them read back as the same list in order, each at its offset |
| Archive.WrittenReadsBack | src/parse/raw.rs:301-307 | records written one after the other read back in order, in frames that tile what was written |
| Archive.RunTiles | src/io/read.rs:794-799 | in any stream, a record read is writable and its frame is as long as its written form |
| GzipArchive.RecordsFillMembers | src/io/write.rs:315-325 | records compressed one to a member read back in order, each framed by its own member, and then whatever failure follows them |
| GzipArchive.BrokenMemberMisplaces | src/io/gzip.rs:85-107 | a record in a member that fails to decode is given a frame holding no octets and a count of no members, and no record is found there |
| GzipArchive.FailingSourceHidesLast | src/io/gzip.rs:112-145 | a source that fails where the last member ends leaves its record framed, and reading that frame fails as the source does |
| Failures.SmallIsStorable | src/parse/raw.rs:275-283 | the record of one field and no body is valid and within the limits |
| Failures.SmallIsMisplaced | src/io/gzip.rs:85-107 | the member that breaks off, for that record: it holds the record, and is not counted |
| Failures.SmallIsHidden | src/io/gzip.rs:112-145 | the source that fails, for that record |
| Failures.FilteringHidesFailure | src/io/read.rs:1032-1064 | a stream of any one record that fails within its end, on which filtering reports a truncated body and iterating the failure of the source |
| Failures.SmallIsTruncated | src/io/read.rs:1032-1064 | such a stream, which the condition for skipping safely excludes |
| Writer.Tap.Write | src/io/write.rs:353-363 | counts and digests just the octets the sink took |
| Writer.Tap.WriteAll | src/io/write.rs:353-363 | all the octets pass, or on failure a prefix of them, which is what was counted and digested |
| Writer.WriteField | src/parse/raw.rs:235-255 | emits a field line part by part, or a prefix of it |
| Writer.WriteHeader | src/parse/raw.rs:235-255 | emits the header block and returns its length, or emits a prefix of it |
| Writer.WriteRecord | src/parse/raw.rs:301-307 | emits header block, body and record end, and returns their length; on failure a prefix |
| Writer.WarcWriter.Write | src/io/write.rs:227-259 | an invalid record writes nothing; a valid one is stored, plainly or as one member, counted, digested and framed, and a failed write moves the position past what was stored |
| Writer.WarcWriter.Frame | src/io/write.rs:262-271 | the frame starts at the old position, which advances by its length |
| Sessions.PositionFollows | src/io/write.rs:262-271 | over any session, failures included, what is stored only grows and the position stays at its end |
| Sessions.FrameHolds | src/io/write.rs:227-271 | every frame reported holds its record's stored form from then on, its digest covers just that, and later frames lie after it |
| Sessions.AcceptedAreStored | src/io/write.rs:227-242 | without failures, the valid records and they alone are stored, in order |
| Sessions.FramesTile | src/io/write.rs:262-271 | the frames reported tile what is stored |
| Sessions.PlainSessionReadsBack | src/io/write.rs:227-271 | an uncompressed session reads back as the records accepted, each in the frame the session reported |
| Sessions.ReportedFrameReads | src/io/write.rs:227-271 | the frame reported for a record reads as that record at any later point of an uncompressed session, failed writes included, exactly when the reader takes its size |
| Sessions.StoredReadsBack | src/parse/raw.rs:301-307 | valid records stored one after the other, plain or split into members anyhow, read back exactly when each is of a size the reader takes |
| Sessions.GzipSessionReadsBack | src/io/write.rs:227-325 | so does a compressed one, each frame being the one member that holds the record |
| Headers.SpacedIdIsSame | crates/archivindex-warc-ops/src/header.rs:51-58 | an identifier written as a field value names the same record |
| Headers.RedirectReferences | crates/archivindex-warc-ops/src/header.rs:116-133 | the loop replaces just the references that are redirected, in place |
| Headers.GetRedirected | crates/archivindex-warc-ops/src/header.rs:116-133 | the first value of a field is still the first, redirected when it is a reference |
| Headers.SetFilename | crates/archivindex-warc-ops/src/header.rs:78-91 | the loop renames or drops just the file name fields |
| Headers.GetRenamed | crates/archivindex-warc-ops/src/header.rs:78-91 | no other field's value is changed by it |
| Headers.GetInserted | crates/archivindex-warc-ops/src/header.rs:97-110 | an inserted field that was absent is the one found, and no other name finds anything else |
| MergePlan.BodyKey | crates/archivindex-warc-ops/src/merge.rs:352-390 | the cursor loop strips just the ignored fields with their continuations, from a body of warc-fields alone |
| MergePlan.EarliestOf | crates/archivindex-warc-ops/src/merge.rs:181-191 | the minimum loop finds the earliest dated member, undated ones last, ties by arrival |
| MergePlan.GroupRecords | crates/archivindex-warc-ops/src/merge.rs:153-159 | the groups partition the records by key, each in order of arrival |
| MergePlan.FindDifferences | crates/archivindex-warc-ops/src/merge.rs:167-179 | the parts in which any two keys differ, whichever key the map hands out first |
| MergePlan.RedirectGroup | crates/archivindex-warc-ops/src/merge.rs:193-225 | redirects exactly the dropped identifiers to the kept one, or fails where a dropped one has none to go to |
| MergePlan.PlaceGroup | crates/archivindex-warc-ops/src/merge.rs:227-234 | emits the kept record at the first member and skips the others, touching no other group |
| MergePlan.PlanGroups | crates/archivindex-warc-ops/src/merge.rs:188-235 | the loop over the groups, in the order the map hands them out, leaves the actions and the redirects of that order |
| MergePlan.PlanInIsPlan | crates/archivindex-warc-ops/src/merge.rs:188-242 | in any order, exactly the dropped identifiers are redirected, each to that of a record kept for it |
| MergePlan.Build | crates/archivindex-warc-ops/src/merge.rs:133-242 | gives the plan of some order of the groups, and fails exactly when a dropped record has an identifier and the one kept for it has none |
| MergeReading.FilterTakes | src/io/read.rs:1032-1064 | one call of the counting filter passes over the records it refuses, and has counted each record up to the one it keeps |
| MergeReading.ReadWarcinfos | crates/archivindex-warc-ops/src/merge.rs:136-151 | reading a stream through the counting filter gives its warcinfo records, in order, and the number of all its records, and fails exactly when plain iteration meets an error |
| MergeReading.BuildFromStreams | crates/archivindex-warc-ops/src/merge.rs:133-242 | the plan built from two streams is that of the records they hold, with the count of the first stream's |
| SharedNames.SharedNameIsAmbiguous | crates/archivindex-warc-ops/src/merge.rs:188-235 | one identifier given to copies of two records is redirected to either, by the order of the groups, and in no order does every reference resolve |
| SharedNames.LettersAreAmbiguous | crates/archivindex-warc-ops/src/merge.rs:188-235 | such a merge of four valid records |
| MergePass.Pass.Apply | crates/archivindex-warc-ops/src/merge.rs:261-307 | the two scopes, the count and the record written, as one step of the specified pass |
| MergePass.Transform | crates/archivindex-warc-ops/src/file.rs:126-195 | streams both inputs through the pass into the writer; what is stored is what the pass makes, and each failure has its cause |
| MergeMeaning.PassTracks | crates/archivindex-warc-ops/src/merge.rs:253-308 | at every record the input scope is that of the latest warcinfo record of that input and the output scope that of the last one emitted |
| MergeMeaning.RedirectsResolve | crates/archivindex-warc-ops/src/merge.rs:193-225 | references to every copy of a warcinfo record, once redirected, name the copy kept, exactly when the identifiers are consistent |
| MergeMeaning.UniqueIsConsistent | crates/archivindex-warc-ops/src/merge.rs:193-225 | identifiers unique but for copies of one record are consistent |
| MergeMeaning.KeptIsNotRedirected | crates/archivindex-warc-ops/src/merge.rs:193-225 | where identifiers are consistent, that of a kept record is never redirected |
| MergeMeaning.KeptIsFound | crates/archivindex-warc-ops/src/merge.rs:227-234 | a name of a kept record resolves in the output to what was emitted for it |
| MergeMeaning.MergePreservesAssociation | crates/archivindex-warc-ops/src/merge.rs:253-308 | in the output of a merge every record belongs to the warcinfo record kept for the one it belonged to, by name or by place, or to none if it had none; its version and body are kept |
| MergeFacts.PlanIsDetermined | crates/archivindex-warc-ops/src/merge.rs:188-242 | any two orders of the groups give one plan, exactly when no identifier is shared by dropped records with different ones kept |
| MergeFacts.UniqueIdsAreUnambiguous | crates/archivindex-warc-ops/src/merge.rs:188-242 | unique identifiers are enough for that |
| MergeFacts.OneEmittedPerGroup | crates/archivindex-warc-ops/src/merge.rs:181-234 | each group has exactly one record emitted, at its first member, and it is its earliest |
| MergeFacts.MergeAccounts | crates/archivindex-warc-ops/src/merge.rs:245-317 | records written and merged add up to the records read, and one warcinfo record is written per group |
| MergeFacts.MergedIsValid | crates/archivindex-warc-ops/src/merge.rs:253-308 | a merge of valid records makes valid records only, so that no rewriting is refused by the writer |
| MergeBodies.IgnoredFieldsMayVary | crates/archivindex-warc-ops/src/merge.rs:325-390 | a warcinfo record with an ignored field, wherever and however folded, has the key it has without it |
| Merging.MergeRecords | crates/archivindex-warc-ops/src/merge.rs:97-317 | the two passes together: a success stores what the theorems above speak of and reports its counts; with valid records and a sink that takes everything, only the merge's own errors are left |
| Merging.MergedReadsBack | crates/archivindex-warc-ops/src/merge.rs:245-317 | the output of a merge of valid records, plain or split into members anyhow, reads back as what was merged, exactly when no rewritten header block is over the limit |
| Merging.MembersReadBack | crates/archivindex-warc-ops/src/merge.rs:245-317 | so does an output compressed one record to a member |
| Identity.MergeKeepsIdentity | crates/archivindex-warc-ops/src/merge.rs:283-302 | placing a record under another warcinfo record and redirecting its references leaves its identity |
| MediaType.Unquote | src/parsing.rs:145-178 | the loop decodes a quoted string, or reports its first fault |
| MediaType.SplitParameter | src/value/media_type.rs:355-373 | the loop ends a parameter at the first semicolon outside quotes |
| MediaType.Parse | src/value/media_type.rs:220-282 | the loop that gathers parameters and separators computes the parse of a value |
| MediaTypeRoundTrip.RoundTrip | src/value/media_type.rs:121-136 | what is accepted prints to a form read as the same value, and, unless something is quoted, to the very octets read |
| MediaTypeRoundTrip.PrintedReadsBack | src/value/media_type.rs:320-334 | every well-formed media type is read back from its printed form |
| MediaTypeRoundTrip.ParsedIsMediaType | src/value/media_type.rs:220-282 | everything accepted is a well-formed media type |
| MediaTypeRoundTrip.FastPathAgrees | src/value/media_type.rs:338-352 | on every input the fast path for common values gives what the general path does |
| MediaTypeRoundTrip.PrintIsInjective | src/value/media_type.rs:320-334 | no two well-formed media types print alike |
| BaseEncoding.EncodedDecodes | crates/archivindex-warc-digest/src/parsing.rs:45-82 | a digest written in any encoding decodes to its octets, and its length is told beforehand |
| BaseEncoding.DecodedHasLength | crates/archivindex-warc-digest/src/parsing.rs:54-57 | the length told from the digit count is that of what is decoded |
| BaseEncoding.AtMostOneFits | crates/archivindex-warc-digest/src/lib.rs:258-270 | a value of a length of three octets or more fits at most one encoding |
| BaseEncoding.ShorterIsAmbiguous | crates/archivindex-warc-digest/src/lib.rs:258-270 | a shorter one may fit two |
| BaseEncoding.DecodeValueIsUnique | crates/archivindex-warc-digest/src/lib.rs:258-270 | an encoding is told exactly when it is the only one that fits |
| BaseEncoding.WrittenDigestIsRead | crates/archivindex-warc-digest/src/lib.rs:204-218 | a digest of known length is read back in the encoding it was written in |
| Digest.FromLabel | crates/archivindex-warc-digest/src/label.rs:17-29 | the loop over the letters collects the flag of each uppercase one |
| Digest.WriteLabel | crates/archivindex-warc-digest/src/label.rs:90-115 | the loop over the spelling writes the label in the case its flags tell |
| Digest.LabelReadsBack | crates/archivindex-warc-digest/src/label.rs:54-115 | every label, known or not, is written exactly as it was read |
| Digest.FlagsFitOctet | crates/archivindex-warc-digest/src/label.rs:12-29 | the flags of every known label fit the octet that holds them |
| Digest.PrintsAsRead | crates/archivindex-warc-digest/src/lib.rs:152-181 | a labelled digest prints as it was read |
| Digest.KnownIsUnambiguous | crates/archivindex-warc-digest/src/lib.rs:258-270 | for every known algorithm at most one encoding fits a value |
| Digest.FromDigestDecodes | crates/archivindex-warc-digest/src/lib.rs:204-252 | a digest labelled in any encoding decodes to its octets |
| Digest.EncodingsAreSame | crates/archivindex-warc-digest/src/lib.rs:273-282 | one digest is equal to itself across encodings, label spellings and letter case |
| Digest.SameIsEquivalence | crates/archivindex-warc-digest/src/lib.rs:273-285 | equality, which compares decoded octets where it can, is an equivalence relation |
| Digest.SameHashesSame | crates/archivindex-warc-digest/src/lib.rs:287-296 | equal digests feed a hasher the same octets |
| Date.From | src/value/date.rs:250-267 | the loop strips trailing zeros of the fraction |
| DateRoundTrip.PrintedReadsBack | src/value/date.rs:140-247 | a date is read back from what is printed: whole under WARC 1.1, to the second under 1.0 |
| DateRoundTrip.ParsedPrintsBack | src/value/date.rs:140-247 | every accepted string is printed back as it was read, under either version |
| DateRoundTrip.NewIsWarcDate | src/value/date.rs:69-118 | every instant, leap seconds and unwritable years included, at any precision makes a date that prints and reads back |
| DateRoundTrip.NewKeepsDates | src/value/date.rs:69-118 | truncating a date to its own precision changes nothing |
| DateRoundTrip.FromKeepsInstant | src/value/date.rs:250-314 | converting an instant keeps all its nanoseconds, and fewer fractional digits would lose some |
| Identity.EncodePreimage | crates/archivindex-warc-identifier/src/lib.rs:129-138 | the parts handed to the writer make up the preimage |
| Identity.IdentityIsValid | crates/archivindex-warc-identifier/src/lib.rs:140-162 | constructing an identity from a record validates it: a known type, an original exactly for revisits, no empty URI |
| Identity.EightOctets | crates/archivindex-warc-identifier/src/lib.rs:165-175 | a length or a date is determined by its eight big-endian octets |
| Identity.PreimageDetermines | crates/archivindex-warc-identifier/src/lib.rs:129-175 | the preimage of validated identities is injective, and no preimage is a proper prefix of another |
| Identity.SamePreimageSameCapture | crates/archivindex-warc-identifier/src/read.rs:20-60 | records with equal preimages have equal dates, targets, block hashes and, for revisits, originals |
| Identity.EmptyTargetIsAbsent | crates/archivindex-warc-identifier/src/lib.rs:129-138 | without the rule against empty URIs, an empty target and an absent one would have one preimage |
| Identity.IdentityIgnoresOrder | crates/archivindex-warc-identifier/src/read.rs:20-60 | the order of header fields does not matter |
| LensNames.StandardNameKey | src/parse/untyped/name.rs:90-118 | each standard name is recognized as its own field |
| Lifting.ReadLines | src/record/mod.rs:1310-1354 | reads every field against its grammar, or reports the first that does not fit |
| Lifting.FindRepeated | src/record/mod.rs:248-263 | the loop with its set finds the first field repeated that may not be |
| LensRoundTrip.RepeatedIff | src/record/mod.rs:248-263 | it finds none exactly when each field that may not be repeated has at most one line |
| Lifting.Lifter.TakeForm | src/record/lift.rs:70-83 | removes the first line of a field and nothing else |
| Lifting.Lifter.TakeRepeated | src/record/lift.rs:134-156 | the loop takes every line of a field in order and leaves the others |
| Lifting.Lifter.TakeSlot | src/record/lift.rs:86-188 | takes a required, optional, repeated or origin field, with its error |
| Lifting.TakeAll | src/record/mod.rs:1140-1307 | takes the fields of a record type one after the other and leaves exactly the rest |
| Lifting.LiftHeader | src/record/mod.rs:1310-1354 | the conversion of a header, its checks in their order included |
| LensRoundTrip.LiftedIsSettled | src/record/mod.rs:1140-1354 | a lifted header meets what rendering relies on: each value stands for itself, as many as its field takes, and what is kept is normal and not reserved |
| Rendering.Renderer.Push | src/record/render.rs:66-84 | appends one line that the version defines and can spell, or nothing |
| Rendering.Renderer.PushValues | src/record/render.rs:175-198 | appends a line for each value, in order, up to the first that fails |
| Rendering.Renderer.PushFields | src/record/mod.rs:996-1075 | appends the fields of a type in the order they are pushed |
| Rendering.Renderer.PushUnrecognized | src/record/render.rs:215-254 | appends fields kept as read, each checked to be read back |
| Rendering.Renderer.CanonicalOrder | src/record/render.rs:281-284 | sorts by rank and keeps the lines of each field in their order |
| Rendering.OrderedIsStableSort | src/record/render.rs:281-284 | the ordering used is the only list in order of rank that keeps the lines of each field as they stood |
| LensRoundTrip.OrderedKeepsFields | src/record/render.rs:281-284 | no field gains, loses or reorders lines |
| Rendering.Render | src/record/mod.rs:942-1075 | the rendering of a record, its checks in their order included |
| LensRoundTrip.RenderedLifts | src/record/mod.rs:942-1354 | any settled record that renders is lifted from what is rendered |
| LensLaw.LiftAndRenderUndo | src/record/mod.rs:942-1354 | a record lifted from a header and paired with a body, if it renders, is lifted again from its rendering, repeated fields in order; it is unchanged exactly when the ranks of the fields it keeps never descend, as for every standard type |
| LensLaw.InOrderIff | src/record/render.rs:281-284 | ordering leaves a list of fields alone exactly when their ranks never descend |
| Reordering.ExtensionTypesAreReordered | src/record/mod.rs:1279-1307 | a header of a type outside the standard, with the mandatory fields and any that its type does not take, lifts and renders, and is lifted from that with the latter in conventional order: unchanged exactly when their ranks never descend |
| Reordering.GrammarsClaim | src/record/mod.rs:1279-1307 | the library's grammars accept such headers, a standard field after an extension field, with any URIs, any date and any text |
| Reordering.ListedIsReordered | src/record/mod.rs:1279-1307 | one such header, under these grammars, that does not come back as it was |
| FormCodec.FormReadsBack | src/parse/untyped/value.rs:146-263 | every form that is read is written as a value that reads as the same form |
| FormCodec.UriReadsBack | src/parse/untyped/value.rs:266-287 | a URI is read back with or without its brackets |
| FormCodec.SpelledIsRead | src/record/render.rs:90-128 | what is spelled for a value in the brackets of its version is read as it |
| FormCodec.DatumIsWritable | src/record/render.rs:118-128 | what has been read can be written again under a version that has its precision |
| FormCodec.CodecIsLawful | src/parse/untyped/value.rs:146-287 | the law that the semantic layer relies on holds of these grammars |

## Left out

Of the reader and the writer:

- Messages and lossy text in errors: an error keeps its kind, and the octets or index it reports where those matter.
- Interrupted reads and writes, which the library retries: a source either offers octets, ends or fails.
- The width of `usize` is 64 bits; a stream is at most 2^64 - 1 octets, and overflow of the writer's position past that is not modelled.
- Deflate and checksums: a gzip file is a list of members with their contents and compressed sizes, and at most one broken tail.
- A compressed source that fails inside a member, as the decoder then reports it, is the same broken tail as a decoder's own failure.
- Iterators.RawRecordAtGzip: only frames that cover whole members, which are the ones the reader reports; any other offset is decoded by a foreign library.
- Sources.MemberReader.Window: likewise, a window that ends inside a member is not modelled.
- Reader.Reading.NextRecord: for an error item in a gzip stream, its length and placement are not specified, as a limit exceeded leaves the source where its chunks happen to end; its offset and blank lines are.
- Reader.Reading.NextFiltered: errors of the untyped and semantic levels are one kind, `Refused`, and an error item in a gzip stream is located as for `NextRecord`.
- Writer.WarcWriter.Write: the encoder is a function from a record's octets to a member; what an encoder left after a failure may still flush when dropped is any further octets, which are counted.
- Hash functions: the state of a digest is the octets it was fed.
- The writer's file opening, buffering and flushing.

Of merging:

- Merging.MergeRecords: takes the records two inputs hold, as `MergeReading` reads them; opening files, read errors of the second pass, choosing compression and publishing the output are not modelled.
- The sorted field list of a group key is a multiset. Grammars of dates and of warc-fields bodies are parameters of the merge; a field line without a colon, which the grammar excludes, is taken to be all name.
- Progress logging, and the other operations on archives (propagate, remove, rewrite, lint).

Of values:

- URIs, UTF-8 beyond its shape, IP addresses, and text values belong to other libraries: `FormCodec.CodecIsLawful` and the identity lemmas take their laws as hypotheses.
- Base encodings are those of RFC 4648 as configured in `crates/archivindex-warc-digest/src/lib.rs`; the encoding library itself is not modelled.
- Instants are calendar components; conversion to and from a count of seconds belongs to another library.
- Identity.SamePreimageSameCapture: an identity constructed from a typed record is not modelled, only from one as read.

Of the semantic layer:

- A record type's typed fields are a table of slots, each holding values in order, in place of a structure per type.
- Extension fields taken by an extension are not modelled, only extension record types; every extension field is kept as read.
- Blocks of warc-fields are their source bytes; the checks of digests and payloads are parameters whose failures are reported in the order the code makes them.
- Field names are looked up linearly instead of by length first, to the same result.
- The library's stable sort is specified by what it returns (`Rendering.OrderedIsStableSort`).
- Builders, setters and the propagation of digests into records as they are rendered.
