# Anantha: a verified model

Anantha replaces the certificate in a thermostat's firmware and then speaks to the thermostat
in the vendor's place. This project models the three parts of it whose correctness does not show
in any one function, and proves what they promise. `dafny verify dfyconfig.toml` checks all of it.

**A. A patch that keeps every checksum.** The firmware is an Intel HEX file in raw bytes. Each
record has an 8-bit checksum, and the whole file a 16-bit sum. `cmd/cagen` makes a certificate fit
into the place of the original one, so that every 128-byte slice keeps its 8-bit sum and the whole
keeps its 16-bit sum, for each of the 128 ways in which record boundaries can cut it. `membuf` and
`intelhex` load a firmware, hand the replacement out byte by byte while the records are read back,
and write the records again.

| files | what |
|---|---|
| `Bytes`, `SliceGrid` | sums with wrap-around; the slice grid and the final check |
| `Stuffing`, `Padding`, `Mangling` | line-break runs, padding bytes, and both together |
| `Certs`, `CertSearch` | the loop over the alignments, and the search for a pair of certificates |
| `HexFormat`, `HexCodec`, `Loading` | the record format; the parser and the encoder |
| `Memory`, `MemBuffer`, `Patching` | the sparse memory, its updates, and how a replacement is chosen |
| `Firmware`, `Layout`, `Preservation` | parse, update, encode; why reads meet the replacement in order |
| `FileChecksum`, `Addresses` | the 16-bit file sum; where data goes |
| `PatchEffect`, `PatchedFirmware` | the theorems on the whole patch, from the found pair to the file |

**B. The store of loaded values.** The last value of each key wins, and a message file is deleted
when no current value comes from it any more. `Store` has the operations on values, `LoadedValues`
the class that performs them, `LoadProtocol` every interleaving of loads with the deletion worker,
`Replay` what the values say and why a restart loses nothing, and `Subscription` a subscriber in
every interleaving with updates.

**C. The weekly schedule.** `Clock` reads and writes times of day, `Schedule` sorts the periods of
a day and cuts them into blocks, and `Week` continues the last period of each day after midnight.

Operations that change state are methods, on arrays or on classes with the fields of the
original, and each is proved against a function on values; the properties are then proved about
those functions. Bytes and checksums are numbers below 256 and 65536 with every wrap-around
written out; times of day wrap at 64 bits. Where the program would index out of bounds, look up
what is not there, panic or exit, the model has an outcome of its own for it, apart from the
statistics named under "Left out".

## Where code and promise differ

The code is followed, and where a property fails, the exact condition under which it holds is proved.

- The fix-up can report success and still leave wrong sums, in its branch for a large average.
  `CarryCanFail` is such an input, `CarryOutcome` and `CarriedIsAccepted` say exactly when the sums are
  right. The final check catches it, so nothing wrong is ever stored.
- The walk runs out of bounds where two LFs would balance a slice but less than two padding bytes are
  left, and at a last slice of one byte that needs stuffing (`SliceOutcome`, `FaultsAreTight`).
  `NoPaddingCanCrash` is such an input, with a certificate as long as the original.
- The header tweak is meant for the leftover of the original certificate. With less padding than it
  reaches, it changes the new one (`MangledCertificateIntact`, `AcceptedHeader`).
- A certificate that is accepted at all 128 alignments would be all that is needed, and all of its
  blobs are stored. But the program counts coverages in an array that ends at 127, and panics
  before any pair is compared (`RecordCoverage`, `CertSetup`).
- `cmd/cagen/README.md` draws the inserted whitespace as CR LF. The runs that are written start and
  end with LF, and have CRs only between two LFs.
- The parser takes 0 for an output offset that is not set yet. When the first data record is at
  address 0 and another one is not, data is not moved by one constant, and records can collide
  (`ZeroFirstCollides`, `OneTranslationIff`).
- An end-of-file record that carries data comes out with zeros (`UnpatchedRoundTrip`).
- A subscription channel is meant to be large enough not to drop anything. With 100 values in it, it
  does drop, and the subscriber goes stale: `CanGoStale` is such a run, and `DrainedIsUpToDate` says
  exactly what a drained subscriber has.
- A subscription that names a topic twice never gets a callback (`CallbacksAreComplete`).
- The week is not always covered. A day without periods gets a block until 06:30 at most, and none
  after a day that is empty itself (`EmptyDayInWeek`); two periods with the same start make the blocks
  of a day overlap; and a start at 24:00 or later, which the time parser takes, gives no block.
  `WeekIsTiled` says exactly when the week is covered, for all readable times, and
  `WithinDayCovered` what that means for times within the day.

## Model

| member | source | states |
|---|---|---|
| `SliceGrid.FirstNonMatchingSlice` | cmd/cagen/main.go:817-864 | the final check answers -1 if and only if every slice keeps its 8-bit sum and the whole blob its 16-bit sum; otherwise it names the first wrong slice, or 0 when only the whole sum is wrong |
| `SliceGrid.SumSlices` | cmd/cagen/main.go:830-837 | the inner loop gives the wrapped 8-bit sums of one slice and the wrapped 16-bit sums of everything up to its end |
| `SliceGrid.TailsAgree` | cmd/cagen/main.go:825-849 | slices that agree one by one make up tails that agree |
| `Stuffing.RunShape` | cmd/cagen/README.md:122-136 | every run that the search considers is LF and CR in turn until the chosen number of CRs is used up, and LFs from there on; so it starts and ends with LF, has no CR without its LF, and weighs what the search adds up |
| `Stuffing.BreaksAreStripped` | cmd/cagen/README.md:118-120 | adding line breaks does not change what a PEM reader sees |
| `Stuffing.FirstRunIsFirst` | cmd/cagen/main.go:694-725 | the unbounded search stops; on a slice of two bytes or more it stays inside the slice, finds exactly the first balancing run, no longer than max(2, min(slice, padding)), and gives up exactly when there is none |
| `Stuffing.UpdatedChecksumDecides` | cmd/cagen/main.go:698-711 | the incrementally updated checksum equals the target exactly when the run balances the slice |
| `Stuffing.InsertRunBalances` | cmd/cagen/main.go:727-741 | one insertion balances its slice by the run at the start of it, moves what was between there and the padding down, and changes nothing else |
| `Stuffing.InsertRunKeepsPayload` | cmd/cagen/main.go:727-741 | one insertion only adds line breaks to the bytes above the padding, and keeps CRs paired |
| `Stuffing.HigherSlicesKept` | cmd/cagen/main.go:672-746 | stuffing a lower slice never disturbs a higher one |
| `Stuffing.BelowRoomNothingHappens` | cmd/cagen/main.go:679 | once a slice lies below the remaining padding, so do all lower ones, and neither the blob nor the padding changes any more |
| `Stuffing.StuffedSlicesBalanced` | cmd/cagen/main.go:672-750 | on success every slice of the grid that starts at or above the remaining padding has the 8-bit sum it has in the original |
| `Stuffing.PaddingUntouched` | cmd/cagen/main.go:672-746 | on success every byte below the remaining padding is what it was |
| `Stuffing.StuffingKeepsPayload` | cmd/cagen/main.go:672-746 | on success the bytes from the remaining padding on are the given ones with only line breaks added, and no CR loses its LF |
| `Stuffing.SliceOutcome` | cmd/cagen/main.go:679-729 | one slice: the program runs out of bounds if and only if the slice has to be stuffed and either is a single byte, or two LFs would balance it but less than two padding bytes are left; it gives up if and only if the slice has to be stuffed, is longer, and no run that may be tried balances it; a slice in the padding, or with the right sum, is left alone |
| `Stuffing.FirstFitIsInserted` | cmd/cagen/main.go:691-741 | every other slice that has to be stuffed gets the first run, in the order of the search, that balances it |
| `Stuffing.FaultsAreTight` | cmd/cagen/main.go:672-746 | the program runs out of bounds if and only if the walk reaches a slice in a state that meets that guard; and that has less than two padding bytes left, or the last slice is one byte long |
| `Stuffing.GivingUpIsTight` | cmd/cagen/main.go:672-750 | the walk gives up if and only if it reaches a slice that nothing fits, and succeeds if and only if every slice that it reaches can be left alone or gets a run |
| `Stuffing.UpdatedChecksum` | cmd/cagen/main.go:698-709 | the three loops that weigh one run, with 8-bit wrap-around |
| `Stuffing.FindRun` | cmd/cagen/main.go:691-725 | the nested search loops find what the ordered search finds |
| `Stuffing.CopyWithin` | cmd/cagen/main.go:729 | the overlapping copy inside one array: all bytes are read before any is written, as many as fit |
| `Stuffing.WriteRun` | cmd/cagen/main.go:731-741 | the flag-driven loop writes the alternating run and nothing else |
| `Stuffing.Shift` | cmd/cagen/main.go:727-741 | copy and run together move the placed part down by the length of the run and put the run into the gap, although the copy also drags bytes into the place of the run |
| `Stuffing.SliceChecksums` | cmd/cagen/main.go:680-684 | the two wrapped checksums of a slice |
| `Stuffing.StuffOneSlice` | cmd/cagen/main.go:673-745 | one slice of the walk, in place |
| `Stuffing.FindLastSlice` | cmd/cagen/main.go:659-670 | the loop that looks for the last slice |
| `Stuffing.VerifyFixedBlobs` | cmd/cagen/main.go:658-751 | the whole walk, in place: the verdict, the number of padding bytes used and the new blob |
| `Padding.EvenPaddingWeighs` | cmd/cagen/main.go:798-807 | the average in all bytes but the last, and the rest in the last one, weigh exactly what is missing |
| `Padding.FullPaddingWeighs` | cmd/cagen/main.go:775-781 | full bytes and the last byte leave exactly a multiple of 256 over |
| `Padding.SumAddEachTo` | cmd/cagen/main.go:792-794 | adding a byte to each byte changes the sum by the increments less 256 for each byte that wraps |
| `Padding.FixUpOutcome` | cmd/cagen/main.go:753-815 | the fix-up succeeds if and only if the padding ends strictly inside a slice, and either bytes that differ in the last one only can share the delta, or it exceeds what bytes can weigh and there is a full slice below |
| `Padding.FixUpBytes` | cmd/cagen/main.go:771-809 | every byte that the fix-up writes, in both branches that succeed |
| `Padding.ComputeDelta` | cmd/cagen/main.go:762-769 | the 16-bit delta |
| `Padding.FindPaddedSlice` | cmd/cagen/main.go:754-761 | the slice in which the padding ends strictly inside, if there is one |
| `Padding.PadAndCarry` | cmd/cagen/main.go:773-795 | the carry branch, in place, including its failure after the padding has been written |
| `Padding.PadEvenly` | cmd/cagen/main.go:798-809 | the ordinary branch, in place, including its failure |
| `Padding.FixupStuffBytes` | cmd/cagen/main.go:753-815 | the whole fix-up, in place |
| `Mangling.TweakKeepsSum` | cmd/cagen/main.go:592-598 | raising one header byte and lowering the next keeps the sums of all stretches that hold both or neither |
| `Mangling.WalkLeavesPaddedSlice` | cmd/cagen/main.go:588-602 | after a successful walk every slice but the padded one has its sum, and the part below has the sum of the original |
| `Mangling.EvenPaddingIsAccepted` | cmd/cagen/main.go:603-607 | padding by the ordinary branch makes both checksum levels right |
| `Mangling.EvenPaddingNeverRejected` | cmd/cagen/main.go:584-607 | pipeline: when the walk succeeds and the fix-up takes its ordinary branch, the final check accepts |
| `Mangling.CarryOutcome` | cmd/cagen/main.go:773-796 | the carry branch: all slice sums are right when the padded slice is a full one, and the final check accepts if and only if it is and either less than 128 * 256 was left over and no byte below wraps, or at least that much was and all of them wrap |
| `Mangling.CarriedIsAccepted` | cmd/cagen/main.go:584-607 | pipeline: when the walk succeeds and the fix-up carries, the final check accepts exactly in those cases |
| `Mangling.CarryCanFail` | cmd/cagen/main.go:584-607 | a blob and a certificate for which the walk succeeds, the fix-up reports success, and the final check rejects |
| `Mangling.NoPaddingCanCrash` | cmd/cagen/main.go:568-729 | a blob and a certificate of the same length for which the program runs out of bounds |
| `Mangling.AttemptOutcome` | cmd/cagen/main.go:584-607 | how an attempt ends: it runs out of bounds if and only if the walk reaches a slice that makes it; it is accepted if and only if the walk reaches none of those, none that nothing fits, and the fix-up pads evenly or carries in one of the cases above; otherwise it is rejected |
| `Mangling.AcceptedHeader` | cmd/cagen/main.go:584-607 | an accepted blob starts with the original one up to the part that the fix-up may change, with one of its first or fourth bytes raised by one and the next one lowered; so a header of five dashes is no longer there |
| `Mangling.MangledCertificateIntact` | cmd/cagen/main.go:584-618 | an accepted blob holds the overlaid certificate behind its padding, with only line breaks added and no new lone CR; that is the new PEM if and only if the header tweak lies below it |
| `CertSearch.FullCount` | cmd/cagen/main.go:631-637 | the compared count reaches 128 exactly for full coverage |
| `CertSearch.Result.AddCertLocked` | cmd/cagen/main.go:70-86 | an entry that exists is never overwritten |
| `CertSearch.Result.TryAlignment` | cmd/cagen/main.go:588-607 | one attempt, on a fresh copy |
| `CertSearch.Result.TryAll` | cmd/cagen/main.go:581-618 | all 128 alignments: an entry for exactly the accepted ones, everything stored passes the final check at its own alignment |
| `CertSearch.AllAccepted` | cmd/cagen/main.go:581-622 | a certificate has full coverage if and only if all of its 128 attempts are accepted |
| `CertSearch.Result.RecordCoverage` | cmd/cagen/main.go:620-653 | full coverage by the new certificate alone, and nothing else, runs out of the counters and changes nothing; otherwise a pair is found exactly when some earlier coverage completes the new one, and then the store is rebuilt with one valid entry for each of the 128 alignments |
| `CertSearch.TwoCoverages` | cmd/cagen/main.go:637-648 | the store that is rebuilt comes from two certificates |
| `CertSearch.Result.CertSetup` | cmd/cagen/main.go:568-656 | one round of the search: skipped exactly when the certificate is too long or never accepted, panicking exactly when an attempt does or all 128 are accepted, in which case all are stored by then; after a found pair all 128 entries are outcomes of accepted attempts for two certificates |
| `HexFormat.ParseInSteps` | intelhex/parser.go:56-135 | reading header, body and checksum in turn accepts what the format accepts |
| `HexFormat.AcceptedBytes` | intelhex/parser.go:56-147 | what is accepted as a record, byte by byte: a colon, a length, a big-endian offset, a type of 0, 1, 4 or 5, as many bytes, at least two for type 4, and a last one that makes all but the colon add up to a multiple of 256 |
| `HexFormat.ParsesExactlyRecords` | intelhex/parser.go:56-147 | a prefix of the input is accepted as a record if and only if it is the encoding of a supported record |
| `HexFormat.ParsesExactlyFiles` | cmd/anantha/cmd/update.go:167-171 | round trip and completeness for files: parsing gives these records and this rest if and only if the input is their bytes followed by the rest |
| `HexCodec.Reader.Read` | intelhex/parser.go:56-60 | a byte reader with short reads |
| `HexCodec.Parser.Dispatch` | intelhex/parser.go:85-116 | the case split on the record type, with the addressing state and the write |
| `HexCodec.Parser.ReadRecord` | intelhex/parser.go:56-147 | one record is accepted exactly when the input starts with one, and is then loaded |
| `HexCodec.Encoder.MakeBody` | intelhex/encoder.go:46-55 | the body from the memory, from the record, or zeros |
| `HexCodec.Encoder.EncodeRecord` | intelhex/encoder.go:34-80 | one record written, with a fresh checksum, or a failed read |
| `HexCodec.Encoder.EncodeRecords` | intelhex/encoder.go:24-32 | all records, up to the first failure |
| `Memory.WriteOutcome` | membuf/membuf.go:92-116 | any write, also of addresses that are there: it appends to the first buffer that ends where it starts, or adds one in the order of offsets |
| `Memory.PickOutcome` | membuf/membuf.go:156-172 | of the buffers before the first that starts above the address, a read takes the last that contains it |
| `Memory.EmitBytes` | membuf/membuf.go:173-205 | one part of a read, byte by byte, from any position: the next bytes of the replacement inside the region, the buffer's bytes elsewhere, what was in the array behind those; and nothing is handed out twice |
| `Memory.WriteRefinesMap` | membuf/membuf.go:102-116 | a write of new, nonempty data keeps the buffers sorted and disjoint and adds exactly its bytes to the address map |
| `Memory.ReadRefinesMap` | membuf/membuf.go:156-214 | without an update a nonempty read gives the bytes of the address map across adjoining buffers, or fails because one is missing |
| `Memory.ReadIntoInside` | membuf/membuf.go:156-214 | with all regions inside their buffers, what was in the array before a read does not matter |
| `Memory.ReadClipped` | membuf/membuf.go:173-205 | a read that stays in one buffer cannot tell a region that reaches over its end from one that ends there |
| `MemBuffer.ReplaceConfig.Emit` | membuf/membuf.go:25-34 | one byte of one replacement |
| `MemBuffer.SequentialReplacement.Emit` | membuf/membuf.go:45-54 | the next byte of all replacements together |
| `MemBuffer.SequentialReplacement.IsComplete` | membuf/membuf.go:56-70 | complete exactly when nothing is left; stepping to the next replacement loses nothing |
| `MemBuffer.UpdateWithPermutations` | membuf/membuf.go:143-154 | fills the window from what is left of the replacement and compares the checksums |
| `MemBuffer.Checksum` | membuf/membuf.go:118-125 | two's complement of the wrapped sum |
| `MemBuffer.MemBuffer.WriteAt` | membuf/membuf.go:92-116 | the write, against its value-level specification |
| `MemBuffer.ReadPart` | membuf/membuf.go:173-205 | one buffer's part of a read, with a patch that may reach over the end of its buffer |
| `MemBuffer.MemBuffer.ReadAt` | membuf/membuf.go:156-214 | the recursive read into part of an array, against its value-level specification |
| `MemBuffer.MemBuffer.UpdateBuffer` | membuf/membuf.go:235-274 | one buffer of the update: nothing, a fresh replacement, or a halt |
| `MemBuffer.MemBuffer.UpdateAll` | membuf/membuf.go:234-276 | the update of all buffers |
| `Patching.FindingOutcome` | membuf/membuf.go:235-272 | one buffer of the update: nothing is found exactly without a start marker; otherwise the program halts exactly when the distance from the first one to the first record read from there on, if there is any, has no replacement, and else that replacement is taken |
| `Patching.RegionEnds` | membuf/membuf.go:241 | the region ends with the first end marker from its start on; without one it is one byte shorter than the marker |
| `Patching.RegionInside` | membuf/membuf.go:236-241 | a region lies in its buffer exactly when an end marker follows, or the marker is too short to reach over the end |
| `Patching.UpdateEach` | membuf/membuf.go:234-276 | the update treats every buffer on its own, and halts exactly when one of them does |
| `Layout.WriteAppends` | membuf/membuf.go:92-116 | a write appends to one buffer at its end, and leaves the others alone |
| `Layout.EmitInOrder` | membuf/membuf.go:143-205 | cursor invariant: while a buffer is read from its start, each read gives the patched bytes and the cursor equals the number of region bytes covered |
| `Preservation.FindRecord` | intelhex/parser.go:89-97 | a data record lies in some buffer right behind what the records before it put there |
| `Preservation.ReadsRecord` | membuf/membuf.go:180-205 | while the reads follow the records, a read gives the patched bytes, and fails exactly when they change the record's 8-bit sum |
| `Preservation.EncodesRewritten` | intelhex/encoder.go:24-80 | encoding the loaded records gives the rewritten records, and fails exactly when some data record's sum changes |
| `Preservation.MutateOutcome` | cmd/anantha/cmd/update.go:164-183 | every input: what does not start with a file is refused, the program halts exactly when the update does for one of the buffers, and whatever comes out is a file again, with the same headers and address records |
| `Preservation.MutateExactly` | cmd/anantha/cmd/update.go:164-183 | the exact outcome of every update that does not halt: it succeeds if and only if no data record's 8-bit sum changes, and the output is then the same records with the patched bytes at their addresses; a region that reaches over the end of its buffer ends there |
| `Firmware.MutateFirmware` | cmd/anantha/cmd/update.go:164-183 | the composition of parser, update and encoder |
| `FileChecksum.FullChecksumWriter.Write` | cmd/hexcsum/main.go:27-32 | the wrapped 16-bit sum |
| `FileChecksum.SumRecord` | cmd/hexcsum/main.go:51-58 | one record summed up, less its mark |
| `FileChecksum.HexChecksum` | cmd/hexcsum/main.go:34-61 | the printed sum of a whole file, or no sum where parsing fails |
| `FileChecksum.FileSumIsContents` | cmd/hexcsum/main.go:46-60 | taking one mark off per record leaves the sum of headers, data and checksum bytes |
| `Addresses.BaseIsRead` | intelhex/parser.go:102-108 | the base address is 65536 times the big-endian number in the last extended address record so far, or 0 |
| `Addresses.PlainSpotIsAddress` | intelhex/parser.go:89-95 | without the compact output, data is written to the address that the file gives |
| `Addresses.SpotIsTranslated` | intelhex/parser.go:89-95 | each data record is moved from the address that the file gives it down by the first nonzero data address up to it |
| `Addresses.OneTranslationIff` | intelhex/parser.go:89-95 | all data is moved by one constant if and only if the first data address is not 0 or all of them are |
| `Addresses.ZeroFirstCollides` | intelhex/parser.go:91-93 | two records at different addresses that are written to the same place |
| `Addresses.DisjointIsWellPlaced` | intelhex/parser.go:89-97 | disjoint nonempty data with a nonzero first address is written without overlap |
| `PatchEffect.UnpatchedRoundTrip` | cmd/anantha/cmd/update.go:164-183 | a file without the marker comes out byte for byte as it went in, if and only if its end-of-file record carries only zeros |
| `PatchEffect.StretchKeepsSum` | membuf/membuf.go:184-205 | a stretch that holds nothing or one slice of the region keeps its 8-bit sum |
| `PatchEffect.FileGain` | cmd/hexcsum/main.go:46-60 | record by record, the file's sum changes by what the sums of the buffers change by |
| `PatchEffect.BoundariesOnGrid` | membuf/membuf.go:245-252 | in full, ascending records every boundary in the region is on the slice grid |
| `PatchEffect.RegularOnGrid` | membuf/membuf.go:245-252 | and on the very grid whose alignment the update computes |
| `PatchEffect.SearchStores` | cmd/cagen/main.go:620-653 | what the certificate search leaves behind meets the condition of the firmware theorem, and has every alignment after a found pair |
| `PatchEffect.PatchKeepsChecksums` | cmd/anantha/cmd/update.go:164-183 | with aligned replacements the patch succeeds and keeps length, headers, checksum bytes and file sum |
| `PatchEffect.UpdatedFirmwareIsValid` | cmd/anantha/cmd/update.go:164-183 | when the update goes through and what it found is the original blob in full records, the output keeps all checksums |
| `PatchedFirmware.ReplacesOnlyRegions` | cmd/anantha/cmd/update.go:164-183 | nothing but the data between the markers changes, and that becomes the replacement stored for the alignment |
| `PatchedFirmware.PatchedFirmwareIsValid` | cmd/anantha/cmd/update.go:164-183 | end to end, from the store, the file and the original blob alone: with all 128 alignments stored, a firmware that carries the blob in full ascending records is always patched, keeps length, headers, checksum bytes and file sum, and changes only between the markers |
| `PatchedFirmware.PairGivesValidFirmware` | cmd/cagen/main.go:620-653 | from a found pair to the firmware: what a pair leaves in the store always patches such a firmware, keeps all its checksums, and each region is from its padding on one of the two PEMs with only line breaks added and no new lone CR, unchanged if and only if the header tweak lies below it |
| `PatchEffect.DiffersOnlyInRegions` | cmd/anantha/cmd/update.go:164-183 | that firmware differs from the given one only in the regions, which become the replacements |
| `PatchEffect.PatchedMemoryDiffers` | membuf/membuf.go:143-205 | the patched memory is the loaded one except in the regions |
| `PatchEffect.FullCoverageUpdates` | membuf/membuf.go:234-276 | with all 128 alignments stored the update halts exactly when a first boundary is missing or more than a record away |
| `Store.CountAfterUpdate` | cmd/anantha/cmd/types.go:147-168 | how one update changes the number of keys that came from a file |
| `Store.UpdateKeepsCounts` | cmd/anantha/cmd/types.go:136-190 | every update finds the statistics it looks up, keeps each count equal to the number of keys, and lowers no key's time |
| `Store.MessageLoadedIs` | cmd/anantha/cmd/serve.go:74-81 | a load leaves under each key that the message names its last setting of that name, unless a newer value is there, and everything else as it was |
| `LoadedValues.LoadedValues.StartLoading` | cmd/anantha/cmd/types.go:112-121 | a file is marked as being loaded, with the count it has or none |
| `LoadedValues.LoadedValues.EndLoading` | cmd/anantha/cmd/types.go:123-134 | the file is no longer being loaded, and is queued exactly when no key refers to it |
| `LoadedValues.LoadedValues.Update` | cmd/anantha/cmd/types.go:136-190 | an older value is refused; otherwise the old source loses a reference, and is queued when that was its last and it is loaded, the new one gains one, and every subscriber with room is sent the value |
| `LoadedValues.LoadedValues.Notify` | cmd/anantha/cmd/types.go:170-175 | sends that are dropped where a channel is full |
| `LoadedValues.LoadedValues.Snapshot` | cmd/anantha/cmd/types.go:199-210 | a copy of all values, built key by key |
| `LoadedValues.LoadedValues.Subscribe` | cmd/anantha/cmd/types.go:256-267 | one new channel, listed under each of the topics |
| `LoadedValues.LoadedValues.RemoveFileReferences` | cmd/anantha/cmd/types.go:356-361 | the statistics of a file are dropped |
| `LoadedValues.LoadedValues.DeletionTurn` | cmd/anantha/cmd/types.go:363-375 | one turn of the deletion worker: statistics are dropped only for a file that was removed |
| `LoadedValues.LoadedValues.AddAllConfigSettings` | cmd/anantha/cmd/serve.go:74-81 | loading one message from start to end; no lookup fails, and the counts stay right |
| `LoadProtocol.ReachableInv` | cmd/anantha/cmd/types.go:112-190 | the invariant of the load protocol in every reachable state of every interleaving |
| `LoadProtocol.LoadIsRun` | cmd/anantha/cmd/serve.go:74-81 | loading one message from start to end is one way for every run of the protocol to go on |
| `LoadProtocol.WorkerIsExact` | cmd/anantha/cmd/types.go:363-375 | the worker forgets exactly the files that it has taken from the queue and removed, each at most once, and works on nothing that is still queued |
| `LoadProtocol.DeletionIsExact` | cmd/anantha/cmd/types.go:112-190 | in every reachable state: no lookup has failed, a file has been queued exactly when it has finished loading with no key referring to it, only once, and leaves the queue in that order, counts are exact, and no key refers to a queued, removed or forgotten file |
| `LoadProtocol.RunsMove` | cmd/anantha/cmd/types.go:136-190 | along every run a loaded file's keys only become fewer, queued files stay queued, and no time goes down |
| `LoadProtocol.QueuedForGood` | cmd/anantha/cmd/types.go:363-375 | from the moment a file is queued no key ever refers to it again |
| `Replay.ReachableValues` | cmd/anantha/cmd/types.go:136-190 | in every reachable state each key has what the newest message taken so far says |
| `Replay.ReachableLatest` | cmd/anantha/cmd/types.go:140-142 | the latest time is always that of the newest message of which something was taken in, kept or not |
| `Replay.AllLoadedIsView` | cmd/anantha/cmd/serve.go:74-81 | however loads are interleaved, in the end each key has what the newest message about it says |
| `Replay.ViewIsUnique` | cmd/anantha/cmd/types.go:136-190 | with different times per key there is only one such result |
| `Replay.QueuedIsOvertaken` | cmd/anantha/cmd/types.go:123-190 | at every moment each queued file is overtaken, for each of its keys, by one that is not queued |
| `Replay.ReloadIsComplete` | cmd/anantha/cmd/types.go:363-375 | stopped at any moment, with any of the queued files gone: loading what is left gives the very values that loading everything gives |
| `Subscription.SubscribedIs` | cmd/anantha/cmd/types.go:256-267 | a subscription lists its channel behind the others, under each topic as often as that is named |
| `Subscription.SizeTellsComplete` | cmd/anantha/cmd/types.go:281-283 | comparing the two sizes tells exactly whether all topics are there and different |
| `Subscription.OnChange.MaybeCallback` | cmd/anantha/cmd/types.go:281-289 | one call with all values in order when all topics are there and different, none otherwise |
| `Subscription.OnChange.TakeSnapshot` | cmd/anantha/cmd/types.go:274-291 | the snapshot of the known topics, and the first call |
| `Subscription.OnChange.Deliver` | cmd/anantha/cmd/types.go:298-300 | one received value taken over, and a call if all are there |
| `Subscription.ReachableInv` | cmd/anantha/cmd/types.go:269-305 | the invariant of one subscriber in every interleaving |
| `Subscription.CallbacksAreComplete` | cmd/anantha/cmd/types.go:281-289 | a callback only ever runs with one value for each topic, in order; never for topics that repeat |
| `Subscription.OneCallEach` | cmd/anantha/cmd/types.go:281-300 | no call is left out: there are as many as there were snapshots and receives after which a value was there for each topic |
| `Subscription.GivenUnlessLost` | cmd/anantha/cmd/types.go:170-175 | unless the newest value of a topic found the channel full, it is what the subscriber was last given |
| `Subscription.DrainedIsUpToDate` | cmd/anantha/cmd/types.go:269-305 | once the channel is drained, the subscriber has exactly what it was last given, which is the newest value of each topic unless that was lost |
| `Subscription.FullChannelGoesStale` | cmd/anantha/cmd/types.go:170-175 | an update that finds the channel full leaves the subscriber up to date only if the new value is the one it was last given |
| `Subscription.CanGoStale` | cmd/anantha/cmd/types.go:256-305 | a run that loads one file, all of whose settings have its one time, fills the channel, loses the newest value, and is drained to the one before it |
| `Subscription.LastCallIsNewest` | cmd/anantha/cmd/types.go:269-305 | drained: the last callback got exactly the newest values if and only if those are what was last given, as they are unless one was lost |
| `Clock.ReadsBack` | cmd/anantha/cmd/serve.go:230-253 | reading back what was written gives the time of day, for every number of minutes, negative ones included |
| `Clock.TimesAreRead` | cmd/anantha/cmd/serve.go:230-243 | which texts are read as a time, and as which: the empty one for midnight, and two numbers with a colon between them, each after spaces and with a sign if there is one, that fit into 64 bits, whatever follows |
| `Schedule.SortByStart` | cmd/anantha/cmd/serve.go:260-275 | the exchange sort in place: sorted, a permutation, as it was if that was sorted, or stopped by a time that cannot be read |
| `Schedule.AppendBlock` | cmd/anantha/cmd/serve.go:304-336 | the block of one period, split at midnight |
| `Schedule.BlockShape` | cmd/anantha/cmd/serve.go:304-336 | one period, whatever the times: until a later start it lasts until then, and its text says so; until another one it lasts until midnight, and if it is not before midnight there is no block |
| `Schedule.ComputeScheduleBlocks` | cmd/anantha/cmd/serve.go:255-340 | it fails exactly when some time cannot be read; otherwise the periods are sorted in place, none is lost, and the result is their blocks |
| `Schedule.TilesCover` | cmd/anantha/cmd/serve.go:279-337 | blocks without gap or overlap cover each minute exactly once |
| `Schedule.BlocksTile` | cmd/anantha/cmd/serve.go:279-337 | the blocks of the periods that start before midnight run from the first start to the next one without gap or overlap if and only if no two of them start at the same time |
| `Schedule.DayTiles` | cmd/anantha/cmd/serve.go:279-337 | for any readable start times: the blocks of a day reach midnight without gap or overlap if and only if some period starts before midnight, all between midnight and midnight, no two of the early ones at the same time, and the blocks are counted from the first start |
| `Schedule.CoveredWithinDay` | cmd/anantha/cmd/serve.go:279-337 | for start times within the day that is: there is a period, and no two start at the same time |
| `Schedule.EndIsTold` | cmd/anantha/cmd/serve.go:299-334 | the end that a block shows, read back, is where the block ends; the last one shows one minute before midnight |
| `Schedule.BlocksSayLatest` | cmd/anantha/cmd/serve.go:279-337 | the block that covers a minute says what the period says that started last |
| `Week.ScheduleView.AddCrossoverBlock` | cmd/anantha/cmd/serve.go:344-391 | one day of the second pass |
| `Week.ScheduleView.AddCrossoverBlocks` | cmd/anantha/cmd/serve.go:342-394 | the second pass, on the map as it changes |
| `Week.OneByOne` | cmd/anantha/cmd/serve.go:344-391 | changing the days one by one, in place, gives each day the continuation of the original day before; it fails if and only if on some day that continuation would end at a start that cannot be read |
| `Week.NeverBadEnd` | cmd/anantha/cmd/serve.go:367-370 | the second pass cannot fail after the first has succeeded |
| `Week.WholeDay` | cmd/anantha/cmd/serve.go:342-394 | for any readable start times, a day is covered without gap or overlap if and only if its own periods cover it from the first one on, and either that one starts at midnight or the day before goes on |
| `Week.CrossoverEndIsTold` | cmd/anantha/cmd/serve.go:360-386 | a continuation starts at midnight and ends at the time that it shows, also where that is the default |
| `Week.ContinuationIs` | cmd/anantha/cmd/serve.go:360-386 | a day with blocks gets one in front exactly when the day before goes on and the day does not start by midnight; it lasts from midnight until the day starts |
| `Week.EmptyDayInWeek` | cmd/anantha/cmd/serve.go:360-386 | in every week, a day without blocks has none, or one from midnight until 06:30 that says what the last block of the day before says; after a covered day it has that one if and only if the day runs on, and it says what was on at its end |
| `Week.EmptyDay` | cmd/anantha/cmd/serve.go:360-386 | a day without blocks is never covered |
| `Week.DaySaysWhatIsOn` | cmd/anantha/cmd/serve.go:342-394 | each block says what is on: the latest period started that day, or else the last one of the day before |
| `Week.WeekIsTiled` | cmd/anantha/cmd/templates.go:176-207 | for any readable start times, the week is covered without gap or overlap if and only if every day is covered by its own periods from the first one on, and each first one is at midnight or follows a day that goes on; and then every block says what is on |
| `Week.WithinDayCovered` | cmd/anantha/cmd/templates.go:176-207 | for start times within the day that is: every day has a period, and no two periods of a day start at the same time |
| `Week.ScheduleView.ComputeWeek` | cmd/anantha/cmd/templates.go:169-207 | both passes together: they fail exactly for a time that cannot be read; otherwise the result is each day cut on its own and then continued, and a covered week exactly under that condition |

## Left out

- Certificates and keys: making, parsing and encoding them. A new certificate is any sequence of bytes.
- Statistics, logging, progress pages and result files of `cmd/cagen`, including the two arrays of
  15 counters by slice number (`numSlicesNotMatched`, `firstMismatchedSlice`), which run out for
  longer blobs. The counters by coverage, which run out at full coverage, are modelled.
- The workers of `cmd/cagen` that run the search at the same time: one round is one call, and storing
  a certificate is one step under the lock.
- Blobs shorter than five bytes, which the header tweak needs.
- Mangling.EvenPaddingNeverRejected: asks that the two header bytes do not wrap, which they cannot
  in a blob that starts with five dashes.
- Files, sockets and HTTP around `mutateFirmware`, and the tools that convert HEX files.
- Sorting the buffers is modelled as insertion. For nonempty data that does not overlap, which is
  where the theorems hold, no two buffers start at the same place, so both give the same order.
- `memBuffer.Reader`, and reads of no bytes at all, beyond what `ReadAt` itself does with them.
- PatchedFirmware.PatchedFirmwareIsValid: asks, as `PairGivesValidFirmware` does, for nonempty data
  records that do not overlap, full and ascending ones where the certificate is, an end-of-file record
  that carries nothing but zeros, and for the default compact output; the parser class has the switch
  for the other.
- The writer behind the file checksum gets each record at once instead of header, body and
  checksum byte in turn.
- DNS, TLS, MQTT and the web pages, apart from the schedule.
- The deletion queue has no bound here, so nothing is claimed about an update that blocks on it.
- Subscriptions by pattern and to all changes, and cancelling a subscription.
- Replay.ReloadIsComplete: excludes different messages about one key with equal times, since the one
  that is loaded last wins; `AllLoadedIsView` allows them.
- A file is loaded once per run; loading the same file again while it is loaded is not in the protocol.
- References as map values: the statistics of a file are replaced in their map where the original
  updates them in place.
- `ToString`, templates, metrics and topic tables.
