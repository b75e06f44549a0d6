# Verified models of the acceptance tooling

This project models the byte-level readers, streaming buffers, protocols, and pairs
of producers and validators of the acceptance tooling under `scripts/`, and proves what they promise. Run
`dafny verify dfyconfig.toml` to check it.

| file | models |
|---|---|
| `Crc32.dfy`, `CrcBurst.dfy`, `CrcAnswers.dfy`, `PngStructure.dfy` | CRC-32 by table and by bits, known answers, the errors it detects, and the PNG chunk walk (W3C PNG Specification, Second Edition, sections 5.3, 5.5, 5.6 and Annex D) |
| `DisplayEvidence.dfy`, `DisplayGrammar.dfy` | the pixel inspection of a capture: chunk reading, unfiltering in place (section 9 of the same specification), pixel counts |
| `Jpeg.dfy`, `Ico.dfy`, `IcoDirectory.dfy`, `Mp4.dfy` | the media validators: JPEG markers and scan data (ITU-T T.81, Annex B), ICO directory tiling and bitmaps, MP4 boxes (ISO/IEC 14496-12, section 4.2) |
| `OutputCapture.dfy` | the bounded head/tail capture of a child's output |
| `TrackLifecycle.dfy` | the serial track lifecycle and its trace |
| `OwnedProcess.dfy`, `ProcessOutcome.dfy` | the owned process and command: deadline, overflow, exit, termination, and what each run comes to |
| `EvidenceManifest.dfy`, `EvidenceContents.dfy` | the evidence manifest builder and validator, and what a manifest holds |
| `HashObserver.dfy` | the continuous location-hash observer and the section of the validator that checks its record |
| `Wav.dfy`, `WavGrammar.dfy`, `WavInspection.dfy` | the WAV writer, the WAV reader, and the loudness inspection of a window |
| `CanonicalJson.dfy`, `ReleaseManifest.dfy` | canonical JSON, the binding of two release identities, and what the bound manifest holds |
| `Sanitizer.dfy` | the sanitiser of possibly cyclic evidence values |
| `JournalCursor.dfy` | serial journal cursors and runtime trace boundaries |
| `DispenseFrame.dfy` | CRC-8, dispense commands and the grouping of repeated controller frames |
| `Bytes.dfy`, `Words.dfy`, `Decimal.dfy`, `Positions.dfy`, `Products.dfy`, `Wrappers.dfy` | buffers, eight-bit words, decimal numerals, lists of positions, products, options |

Code that loops or updates state is a method with the source's loop, or a class with the
source's variables; its contract equates the result with a specification, and the lemmas
say what that specification means. Code that only computes is a function. Bytes are integers
below 256; a buffer is a sequence of them; CRC registers are bit vectors. Node's
`toString("ascii")` clears the top bit of each byte, so names are compared on seven bits.

## What was found

* `sanitizeSensitiveEvidenceValue` prints a function, symbol or bigint without redacting the
  text. So sanitising is idempotent exactly when no such printed text would be changed by
  redaction (`Sanitizer.IdempotentIffPrintedAreClean`, `Sanitizer.PrintedSecretIsNotRedacted`).
* Keys of a canonical object are not always in sorted order: `Object.fromEntries` lists
  array-index keys first, by number. They are sorted if and only if every array-index key of
  the object sorts before every other key, and a smaller index before a larger one
  (`CanonicalJson.CanonicalKeysAreSortedIff`); "10" and "9" are an exception. Equality
  up to key order is decided exactly all the same (`CanonicalJson.CanonicalDecidesSameness`).
* The manifest builder reports `ok` for no tracks at all, and the validator refuses that
  manifest; otherwise an `ok` manifest passes exactly when every track is named by a string
  and every failed one has a reason that is not blank (`EvidenceManifest.OkManifestPasses`,
  `EvidenceManifest.EmptyManifestIsOkButRefused`).
* An observer that was never armed can still finish on the success page
  (`HashObserver.UnarmedCanFinish`), and its record is then refused; a record that is returned
  passes the validator exactly when the catalog was left before `finish`
  (`HashObserver.Observe`). For an observer that was stopped first, the
  condition is on the entries recorded by then
  (`HashObserver.LocationHashObserver.FinishObservation`).
* The text `runOwnedCommand` returns is all that its child ever writes to standard output if
  and only if nothing is delivered behind the return, as the child's exit does not wait for its
  streams to close (`OwnedProcess.TextIsAllOutputIff`, `OwnedProcess.LateOutputIsLost`). It is so
  on every continuation if and only if standard output was closed ahead of the conclusion
  (`OwnedProcess.CompleteIffClosedFirst`), which the source does not wait for.
* `wait` first awaits the child's exit, and terminating clears the deadline timer. So under a
  fair schedule a command settles exactly when its child exits; one that outlives SIGKILL leaves
  the command pending for good, also behind the deadline or an overflow
  (`OwnedProcess.SettlesIffChildExits`, `OwnedProcess.SurvivorLeavesItPending`).
* A cursor whose last frame has the same identity as an earlier retained frame returns
  frames that were already seen, when nothing was appended. It is exact if and only if
  something appended is still shown, or nothing is shown, or no earlier retained frame shares
  the identity (`JournalCursor.CursorIsExactIff`, `JournalCursor.SharedIdentityRepeatsAFrame`).
  Frames whose boundary id ends in their sequence number never collide
  (`JournalCursor.NumberedFramesAreDistinct`).
* `inspectPng` reads more than valid PNG files: any checksum will do, IEND may be missing, IDAT
  chunks need not be consecutive, and a header of width zero may be followed by another
  header. What it reads is an exact grammar (`DisplayGrammar.WalkReadsExactly`), and a file that
  it reads as an image is a valid PNG if and only if the checks it leaves out hold
  (`DisplayGrammar.ReadFileIsPngIff`, with examples in `DisplayGrammar.InvalidFilesAreRead`, which
  the inspection passes, `DisplayGrammar.InvalidFilesPass`). Its counts are right all the same
  (`DisplayGrammar.ReadImageIsCounted`).
* `validJpeg`'s own acceptance of an EOI marker outside a scan is never taken
  (`Jpeg.EndBeforeScanIsRejected`).
* A truncated output capture emits the longest whole-line suffix of the tail it kept if and only
  if that tail does not itself begin at a line start; otherwise the tail's first line is lost
  (`OutputCapture.SuffixIsLongestIff`, `OutputCapture.FirstLineIsLost`).
* The length test for 44 bytes in `parseWavPcm` refuses nothing that the later tests accept
  (`WavGrammar.ParseAcceptsExactlyWav` does not need it).
* A WAV window that ends before it starts is moved up to its start, so a window that is
  contained as asked for can inspect frames behind the containing one, and lose its pass. At a
  sample rate and number of frames, every capture and threshold keeps its pass if and only if
  the wide window inspects every frame of the narrow one (`WavInspection.PassIsKeptIff`, with
  the failing input in `WavInspection.ContainedPassIsLost`). A contained window that does not
  end before it starts always keeps it (`WavInspection.ContainedKeepsPassIff`).

## Model

| member | source | states |
|---|---|---|
| Crc32.BuildTable | scripts/lib/png-structure.ts:3-9 | entry `v` of the table is `v` after eight shift-and-xor steps with the reflected polynomial |
| Crc32.TableStepIsBitwise | scripts/lib/png-structure.ts:15 | for every 32-bit state and byte, the table step equals eight bitwise steps |
| Crc32.Crc32 | scripts/lib/png-structure.ts:11-19 | over any list of buffers, the value is the bitwise CRC of their concatenation, however the bytes are split |
| CrcAnswers.EndChecksum | scripts/lib/png-structure.ts:3-19 | a known answer: the checksum over the letters IEND is AE426082, in which every PNG file ends |
| Crc32.RegisterAppend | scripts/lib/png-structure.ts:13-17 | feeding two buffers one after the other is feeding their concatenation |
| Crc32.StepsAreLinear | scripts/lib/png-structure.ts:6 | any number of steps distributes over exclusive or |
| Crc32.ByteStepInjectiveInState | scripts/lib/png-structure.ts:15 | a byte step never merges two states |
| Crc32.ByteStepIsOnto | scripts/lib/png-structure.ts:15 | every state is reached by a byte step, whatever the byte; with the row above, a byte step is a bijection |
| Crc32.ByteStepInjectiveInByte | scripts/lib/png-structure.ts:15 | from one state, different bytes lead to different states |
| Crc32.OneByteIsDetected | scripts/lib/png-structure.ts:11-19 | changing one byte of an input of any length changes its CRC |
| Crc32.BurstIsDetected | scripts/lib/png-structure.ts:11-19 | changing any bytes within a run of four changes the CRC |
| CrcBurst.BitBurstIsDetected | scripts/lib/png-structure.ts:11-19 | changing any bits within 32 consecutive ones, starting at any bit of a byte and reaching into the fifth byte, changes the CRC |
| PngStructure.IsStructurallyValidPng | scripts/lib/png-structure.ts:21-71 | accepts exactly the files of the grammar: signature, one IHDR of 13 bytes with nonzero sides, consecutive nonempty IDATs, an empty IEND, every CRC right, nothing after it |
| PngStructure.WalkAcceptsExactlyPng | scripts/lib/png-structure.ts:29-70 | the flags of the walk (header seen, image data seen, image data ended) accept a chunk list iff the grammar derives it |
| PngStructure.OneByteTamperIsRejected | scripts/lib/png-structure.ts:21-71 | changing any one byte of an accepted file, other than a byte of a chunk length, makes it rejected |
| DisplayEvidence.PaethIsNearest | scripts/testbed/display-evidence.ts:24-32 | the Paeth choice is the neighbour nearest to the prediction, with ties to left, then above |
| DisplayEvidence.ReconstructedByType | scripts/testbed/display-evidence.ts:133-147 | for each filter type, the original byte from the filtered one and the neighbours, as section 9.2 of the PNG Specification reconstructs it |
| DisplayEvidence.RepetitionFiltersToZero | scripts/testbed/display-evidence.ts:133-147 | known answers: a repeated row under type 2, a repeated pixel under type 1, and both under type 3 |
| DisplayEvidence.UnfilterScanline | scripts/testbed/display-evidence.ts:130-147 | the loop in place yields the scanline whose filtered form it was given, for every filter type 0 to 4, and fails for every other type |
| DisplayEvidence.FilterRowIsInjective | scripts/testbed/display-evidence.ts:133-147 | a filtered scanline has only one original, so the loop finds the original |
| DisplayEvidence.FilteredIsInjective | scripts/testbed/display-evidence.ts:128-147 | filtered image data has only one image and one choice of filters |
| DisplayEvidence.CountScanline | scripts/testbed/display-evidence.ts:148-171 | the loop over the columns adds the row's pixels to the counts |
| DisplayEvidence.TallyIsCardinality | scripts/testbed/display-evidence.ts:126-171 | the visible and matching counts are the numbers of positions whose pixels are visible, or match the challenge inside its region |
| DisplayEvidence.ValuesAreThePixels | scripts/testbed/display-evidence.ts:125-170 | the set of values holds exactly the pixels of the image |
| DisplayEvidence.ReportDescribes | scripts/testbed/display-evidence.ts:174-185 | the report made of an image's counts holds the cardinalities of the sets of its positions and pixels |
| DisplayEvidence.DecodeAndCount | scripts/testbed/display-evidence.ts:122-173 | decoding succeeds iff every row has a known filter type; the counts are those of the image whose filtered form the data is |
| DisplayEvidence.WalkChunks | scripts/testbed/display-evidence.ts:52-90 | the chunk loop: size, colour type and the joined IDAT payloads, or the error of the first bad chunk |
| DisplayEvidence.ReadsPng | scripts/testbed/display-evidence.ts:56-90 | of every well-formed PNG of a supported kind, the loop reads the header's fields and all its image data |
| DisplayEvidence.InspectPng | scripts/testbed/display-evidence.ts:34-186 | the whole inspection: each error in the source's order, or a report that is true of the decoded image: its sides and their product, the number of visible positions and their share, the number of different pixels, and the number of matching positions if a challenge was given |
| DisplayGrammar.WalkReadsExactly | scripts/testbed/display-evidence.ts:52-90 | the walk finds exactly what the grammar says: chunks of their declared lengths with any checksums, up to the end of the bytes or an empty last IEND, supported headers of which only one of width zero may be followed by another, the last header's fields, and all IDAT payloads joined |
| DisplayGrammar.WalkStopsAt | scripts/testbed/display-evidence.ts:52-90 | a walk that fails has read chunks of the grammar up to the first bytes that are no whole chunk, an unsupported or second header, or an end that is not empty or not the last, and the error tells which |
| DisplayGrammar.ChecksumsAreNotRead | scripts/testbed/display-evidence.ts:56-90 | chunk lists with the same names and data are read alike, errors included, whatever their checksums |
| DisplayGrammar.ReadFileIsPngIff | scripts/testbed/display-evidence.ts:34-92 | a file that is read as an image is a valid PNG iff its checksums are right, its one header comes first, it ends in IEND, and its IDATs are nonempty and consecutive |
| DisplayGrammar.WrongChecksumIsRead | scripts/testbed/display-evidence.ts:56-90 | any other checksum on any chunk of a valid file: read alike, and valid no more |
| DisplayGrammar.MissingEndIsRead | scripts/testbed/display-evidence.ts:57-90 | every header and image data without an end are read, and are no valid PNG |
| DisplayGrammar.SplitImageDataIsRead | scripts/testbed/display-evidence.ts:82-83 | another chunk between two IDATs is read, and is no valid PNG |
| DisplayGrammar.RepeatedHeaderIsRead | scripts/testbed/display-evidence.ts:66-81 | a header of width zero followed by another is read with the second one's fields, and is no valid PNG |
| DisplayGrammar.InvalidFilesAreRead | scripts/testbed/display-evidence.ts:52-92 | one-pixel files for the three rows above |
| DisplayGrammar.ReadImageIsCounted | scripts/testbed/display-evidence.ts:34-186 | of everything that is read as an image, valid PNG or not, the report is true of the image: sides, visible and matching positions, share, different pixels |
| DisplayGrammar.InspectionPassesIff | scripts/testbed/display-evidence.ts:34-186 | the inspection passes iff the bytes are 45 or more, begin with the signature, are read by the grammar, and inflate to the filtered rows of some image that the challenge fits; the report is true of every such image |
| DisplayGrammar.InvalidImagePasses | scripts/testbed/display-evidence.ts:34-186 | so every file that is read and is no valid PNG passes the inspection when its data inflates to an image |
| DisplayGrammar.InvalidFilesPass | scripts/testbed/display-evidence.ts:34-186 | the one-pixel files pass it |
| DisplayEvidence.EncodedImageIsCounted | scripts/testbed/display-evidence.ts:34-186 | for every image, every choice of filters per row and every split into IDATs of a valid file, the report is true of the image, whatever the filters |
| Jpeg.SkipFill | scripts/testbed/hard-cutover-absence.ts:501 | stops behind the run of FF bytes |
| Jpeg.ValidScanData | scripts/testbed/hard-cutover-absence.ts:547-573 | the scan-data loop decides the scan-data grammar from the given offset |
| Jpeg.ScanAcceptsExactlyJpeg | scripts/testbed/hard-cutover-absence.ts:499-577 | the marker scan accepts exactly SOI, well-formed segments with one frame header, one scan header, and scan data with at least one data byte that ends in EOI at the end of the file |
| Jpeg.ValidJpeg | scripts/testbed/hard-cutover-absence.ts:491-578 | the loops terminate and accept exactly that grammar |
| Jpeg.EndBeforeScanIsRejected | scripts/testbed/hard-cutover-absence.ts:505-507 | a file with EOI between segments before any scan is rejected, whatever follows |
| Ico.RowBytesIsLeast | scripts/testbed/hard-cutover-absence.ts:619-620 | a row stride is the least multiple of four bytes that holds the row's bits |
| Ico.ValidDibIsExact | scripts/testbed/hard-cutover-absence.ts:580-625 | accepts exactly the bitmaps made of header, masks, palette, and one colour row and one mask row per line, with nothing left over |
| Ico.ReadSpans | scripts/testbed/hard-cutover-absence.ts:639-661 | succeeds iff every directory entry names a nonempty valid image behind the directory and inside the file; then returns their ranges in order |
| Ico.IsChain | scripts/testbed/hard-cutover-absence.ts:663-668 | the final loop decides whether each range starts where the one before it ended, up to the end of the file |
| Ico.SortedChainIsTiling | scripts/testbed/hard-cutover-absence.ts:662-668 | sorted ranges chain iff every byte of the area lies in exactly one range, whatever order they are listed in |
| Ico.TilingMeans | scripts/testbed/hard-cutover-absence.ts:662-668 | then the ranges are pairwise disjoint, every byte has one owner, and the sizes sum to the area |
| Ico.ValidIco | scripts/testbed/hard-cutover-absence.ts:627-669 | accepts exactly the files whose entries are valid images that tile the file behind the directory |
| Ico.AcceptedIcoIsTiled | scripts/testbed/hard-cutover-absence.ts:627-669 | in an accepted file the images are disjoint, cover every byte behind the directory and sum to the remainder |
| IcoDirectory.DirectoryIsReadBack | scripts/testbed/hard-cutover-absence.ts:628-668 | a file put together from any directory and body is accepted iff it has an entry, every entry names a valid image of its sides, and the images tile the body |
| IcoDirectory.OneImageIsAccepted | scripts/testbed/hard-cutover-absence.ts:628-668 | one PNG file or bitmap of the listed sides behind its directory is always accepted |
| Mp4.WalkAcceptsExactlyMp4 | scripts/testbed/hard-cutover-absence.ts:785-806 | the walk accepts exactly a nonempty list of boxes, with 32-bit, 64-bit or to-the-end sizes, the first a file type box with whole brands |
| Mp4.ValidMp4 | scripts/testbed/hard-cutover-absence.ts:782-807 | the loop terminates and accepts exactly that grammar |
| OutputCapture.BoundedOutputCapture.constructor | scripts/testbed/full-workflow-orchestrator.ts:184-188 | an empty capture stands for the empty stream |
| OutputCapture.BoundedOutputCapture.Append | scripts/testbed/full-workflow-orchestrator.ts:190-209 | the five variables remain a function of the concatenated stream alone |
| OutputCapture.BoundedOutputCapture.Finish | scripts/testbed/full-workflow-orchestrator.ts:210-230 | emits the redacted text of the one-shot capture of the stream, with its length and whether it was cut |
| OutputCapture.CaptureChunks | scripts/testbed/full-workflow-orchestrator.ts:180-232 | for any sequence of chunks the output depends on their concatenation only |
| OutputCapture.SuffixOfSuffix | scripts/testbed/full-workflow-orchestrator.ts:208 | keeping the last bytes of what was kept is keeping the last bytes of everything |
| OutputCapture.ShortStreamIsWhole | scripts/testbed/full-workflow-orchestrator.ts:193-199 | up to 512 KiB the stream is emitted whole |
| OutputCapture.LongStreamIsCutAtLines | scripts/testbed/full-workflow-orchestrator.ts:211-224 | a longer one is emitted as the longest whole-line prefix of its first 255 KiB, the marker, and the longest suffix of its last 255 KiB behind a newline; the two do not overlap |
| OutputCapture.SuffixIsLongestIff | scripts/testbed/full-workflow-orchestrator.ts:217-221 | the emitted suffix is the longest whole-line suffix of the last 255 KiB iff these do not begin at a line start; otherwise only their first line is lost |
| OutputCapture.FirstLineIsLost | scripts/testbed/full-workflow-orchestrator.ts:217-221 | the witness: of a long stream of empty lines, the first line of the tail is lost |
| OutputCapture.RetainedIsBounded | scripts/testbed/full-workflow-orchestrator.ts:57-58 | never more than 512 KiB are retained |
| Decimal.DigitsDenote | scripts/testbed/full-workflow-orchestrator.ts:213 | the decimal text of a count reads back as the count |
| TrackLifecycle.RunOneTrack | scripts/testbed/full-workflow-orchestrator.ts:630-771 | for any callbacks, throwing or not: "passed" iff child, validator, terminal and recovery all succeeded, the failure stage is the first that failed; every call is made once at most, the clean-ups iff there is a runner, the preflight iff both returned, the child iff it returned too, each behind the ones before it, then the terminal capture, the recovery and the finished event |
| TrackLifecycle.RunSerialTrackLifecycle | scripts/testbed/full-workflow-orchestrator.ts:599-775 | the entries are the tracks in order, cut short only right after the first failed recovery when halting is on; the tracks' calls come one track after the other, each track's own in order |
| TrackLifecycle.OneOfEach | scripts/testbed/full-workflow-orchestrator.ts:629-773 | each executed track gets exactly one start, one terminal capture, one recovery and one finished event with its entry; the others get none |
| TrackLifecycle.NoStaleEvidence | scripts/testbed/full-workflow-orchestrator.ts:643-678 | wherever the child is called, both clean-ups and the preflight were called ahead of it and returned, and a report is believed only behind its own clean-up |
| TrackLifecycle.ChildRunsBehindCleanUps | scripts/testbed/full-workflow-orchestrator.ts:629-773 | in the whole trace too, a track's child and preflight come behind its own clean-ups, and its recovery behind its terminal capture |
| TrackLifecycle.EntrySays | scripts/testbed/full-workflow-orchestrator.ts:638-751 | trust, judged report, verdict, status and stage of an entry, from the calls made and what they came to |
| OwnedProcess.ProcessOwner.TerminateGroup | scripts/lib/owned-process.ts:103-111 | clears the timer and starts the group's termination unless it has begun or there is no process |
| OwnedProcess.ProcessOwner.OnDeadline | scripts/lib/owned-process.ts:112-115 | marks the deadline and terminates, only while the timer is active |
| OwnedProcess.ProcessOwner.OnPoll | scripts/lib/owned-process.ts:71-77 | SIGTERM, then SIGKILL after the grace time, then failure if the group still remains |
| OwnedProcess.ProcessOwner.ResumeWait | scripts/lib/owned-process.ts:120-133 | what `wait` does once the exit is known, in the source's order of checks |
| OwnedProcess.CommandRunner.OnData | scripts/lib/owned-process.ts:162-174 | one chunk of output: counted and kept, or an overflow that terminates the group |
| OwnedProcess.CommandRunner.Finish | scripts/lib/owned-process.ts:186-199 | the result of the command once `wait` settled |
| OwnedProcess.Drive | scripts/lib/owned-process.ts:79-200 | the objects, driven by any events in any order, follow the state machine |
| OwnedProcess.StepKeepsInv | scripts/lib/owned-process.ts:97-197 | every step keeps the protocol's invariant |
| OwnedProcess.EveryRunIsSafe | scripts/lib/owned-process.ts:103-133 | in every run: termination starts at most once, retained output stays within its bound, `wait` resolves only if the deadline never fired and the group was seen gone, and each failure means what it says |
| OwnedProcess.NoTextAfterOverflowOrDeadline | scripts/lib/owned-process.ts:165-192 | no run returns text after an overflow or a deadline |
| OwnedProcess.TextIsAllOutputSoFar | scripts/lib/owned-process.ts:186-199 | a returned text is all standard output delivered so far, and within the bound |
| ProcessOutcome.EveryResultComes | scripts/lib/owned-process.ts:79-200 | every result of every run is what the events say: the overflow error iff more bytes than the bound came on one stream, else the deadline iff it came up before a termination, else the spawn error, left descendants, a failed probe, the exit status, or all the text; a termination that the group outlives, or that cannot signal it, replaces the reason |
| ProcessOutcome.OverflowIsExceeded | scripts/lib/owned-process.ts:162-174 | the output has overflowed iff the bytes delivered on one stream exceed the bound |
| ProcessOutcome.DeadlineIsFired | scripts/lib/owned-process.ts:103-133 | until the waiter resumes behind the exit, the deadline has fired iff it came up with no termination and no overflow ahead of it |
| ProcessOutcome.PhasesAreSupported | scripts/lib/owned-process.ts:71-77 | each end of a termination rests on a probe that told so: gone, failed, or two grace periods outlived |
| OwnedProcess.TextIsAllOutputIff | scripts/lib/owned-process.ts:162-199 | the returned text is everything the child ever delivers iff nothing is delivered behind the return, for every continuation |
| OwnedProcess.CompleteIffClosedFirst | scripts/lib/owned-process.ts:162-199 | the returned text is complete on every continuation iff standard output was closed ahead of the conclusion |
| OwnedProcess.WhereItReturned | scripts/lib/owned-process.ts:186-199 | every run that has returned did so at one conclusion, so the row above covers it |
| OwnedProcess.LateOutputIsLost | scripts/lib/owned-process.ts:187-199 | a run with a chunk behind the return: the text lacks it |
| OwnedProcess.NothingSettlesWithoutExit | scripts/lib/owned-process.ts:99-121 | without an exit or error of the child nothing settles, whatever the deadline, the output and the signals come to |
| OwnedProcess.SettlesIffChildExits | scripts/lib/owned-process.ts:71-199 | under a fair schedule (a resumption, the ends of both grace periods, a resumption, a conclusion) the command has its result iff the child has exited |
| OwnedProcess.SurvivorLeavesItPending | scripts/lib/owned-process.ts:103-121 | a run with a child that outlives SIGKILL behind the deadline: the command waits on |
| CanonicalJson.CanonicalDecidesSameness | scripts/testbed/acceptance-release-manifest.ts:15-26 | canonical forms are equal iff the values are equal up to key order at every depth |
| CanonicalJson.CanonicalIsIdempotent | scripts/testbed/acceptance-release-manifest.ts:15-26 | canonicalising twice is canonicalising once |
| CanonicalJson.ReorderingIsInvisible | scripts/testbed/acceptance-release-manifest.ts:19-23 | objects with the same properties in another order have one canonical form |
| CanonicalJson.CanonicalIsWellFormed | scripts/testbed/acceptance-release-manifest.ts:15-26 | no object of a canonical form repeats a key |
| CanonicalJson.SortedIsUnique | scripts/testbed/acceptance-release-manifest.ts:20-21 | a set of properties has one sorted list |
| CanonicalJson.CanonicalKeysAreSortedIff | scripts/testbed/acceptance-release-manifest.ts:19-23 | the keys of a canonical object are in sorted order iff, among the keys given, every array index sorts before every other key and a smaller index before a larger one |
| CanonicalJson.NamedKeysAreSorted | scripts/testbed/acceptance-release-manifest.ts:19-23 | without array-index keys they are always sorted |
| CanonicalJson.CanonicalKeysNeedNotBeSorted | scripts/testbed/acceptance-release-manifest.ts:19-23 | the witness that the condition is needed: "10" and "9" come out as 9, 10 in either order, which is not sorted |
| CanonicalJson.BindDecidesSameParts | scripts/testbed/acceptance-release-manifest.ts:136-176 | binding two identities that each build succeeds iff the parts that enter the manifest agree up to key order, and returns the first one's manifest |
| ReleaseManifest.ManifestHolds | scripts/testbed/acceptance-release-manifest.ts:136-157 | which values of the identity stand at which paths of the manifest, in canonical form, and that no other names do |
| ReleaseManifest.BuildsIff | scripts/testbed/acceptance-release-manifest.ts:66-157 | an identity builds iff the checks pass, the required records are objects and the texts are there |
| ReleaseManifest.PropertyIsKept | scripts/testbed/acceptance-release-manifest.ts:15-26 | canonicalising keeps every property under its name, made canonical, and adds none |
| Sanitizer.SanitizeValue | scripts/testbed/failure-evidence-redaction.ts:64-93 | terminates on every finite graph, throws iff the walk meets an object whose properties cannot be read, else returns the specified tree; and restores the shared set exactly, also when it throws |
| Sanitizer.NothingUnreadable | scripts/testbed/failure-evidence-redaction.ts:76-92 | on readable objects it always returns |
| Sanitizer.OutputAtPosition | scripts/testbed/failure-evidence-redaction.ts:77-89 | the output at a visible position is the sanitised value found there, under its ancestors |
| Sanitizer.OnlyVisiblePositions | scripts/testbed/failure-evidence-redaction.ts:72-89 | behind a sensitive key, the depth limit or a cycle, nothing but the marker shows |
| Sanitizer.StandsAt | scripts/testbed/failure-evidence-redaction.ts:64-93 | what stands at every visible position: a primitive unchanged, a text redacted, anything else printed, an object cut off 16 levels down, marked if it is its own ancestor, and otherwise shown with its own keys in order and the marker under the sensitive ones |
| Sanitizer.CircularMeansOwnAncestor | scripts/testbed/failure-evidence-redaction.ts:74-92 | an object becomes "[circular]" iff it is its own ancestor there; otherwise it keeps all its entries |
| Sanitizer.AcyclicIsUnfolded | scripts/testbed/failure-evidence-redaction.ts:64-93 | an acyclic graph is unfolded, shared nodes included, with no "[circular]" |
| Sanitizer.SensitiveKeysAreHidden | scripts/testbed/failure-evidence-redaction.ts:82-88 | every sensitive key of the output holds "[REDACTED]", at every depth |
| Sanitizer.TreeIsWalked | scripts/testbed/failure-evidence-redaction.ts:64-93 | on a tree the ancestor set plays no part |
| Sanitizer.IdempotentIffPrintedAreClean | scripts/testbed/failure-evidence-redaction.ts:64-93 | given an idempotent text redaction that fixes the markers, sanitising the output again changes nothing iff redaction fixes every printed function, symbol and bigint in it |
| Sanitizer.PrintedSecretIsNotRedacted | scripts/testbed/failure-evidence-redaction.ts:71-72 | a text that redaction would change survives when it is printed from a function, symbol or bigint |
| HashObserver.ValidateContinuousHash | scripts/testbed/fast-route-stress-sale.ts:1045-1103 | the checks and the loop over the entries decide the stated conditions on the record as it is handed over, unreadable timestamps and sequences included |
| HashObserver.WrittenIsAcceptedIff | scripts/testbed/fast-route-stress-sale.ts:1765-1773 | given that timestamps are read back as written, the record that the observer writes is accepted iff the stated conditions hold of its instants |
| HashObserver.AcceptsObserved | scripts/testbed/fast-route-stress-sale.ts:1045-1103 | an observer's ordered record passes iff it has two entries, the first from a navigation and the last on the success page |
| HashObserver.LocationHashObserver.RecordHash | scripts/testbed/fast-route-stress-sale.ts:1713-1734 | what one hash adds to the entries, when it arms, and when it fails the observation |
| HashObserver.LocationHashObserver.OnNavigation | scripts/testbed/fast-route-stress-sale.ts:1735-1753 | top-level navigations extend the history and framed ones are ignored; while nothing was refused and the catalog not reached again, the entries are all navigations from the arming one on, numbered from one, each with its method, hash and instant; the observation is refused from then on iff there is no page address, or the clock throws where the entry needs it |
| HashObserver.LocationHashObserver.AssertArmed | scripts/testbed/fast-route-stress-sale.ts:1783-1790 | passes iff nothing was refused, some navigation left the catalog, and none from that one on reached the catalog or the root |
| HashObserver.LocationHashObserver.FinishObservation | scripts/testbed/fast-route-stress-sale.ts:1794-1811 | returns iff the page is the expected one, the clock can be read where it is needed, nothing was refused, and neither the navigations from the arming one on nor the page itself are catalog or root; a returned record holds the entries recorded and the page's own hash behind them, and the times and hash given; it passes the validator iff the catalog had been left, or, if stopped earlier, iff its entries already end on the success page |
| HashObserver.ReachedAppend | scripts/testbed/fast-route-stress-sale.ts:1716-1730 | a history reaches the catalog after arming iff an earlier part did or its last hash does |
| HashObserver.Observe | scripts/testbed/fast-route-stress-sale.ts:1700-1815 | for any navigations before and after `assertArmed`, under a clock that never runs back: exactly when it passes, exactly when `finish` returns, armed and returned implies accepted, a returned record is accepted iff the catalog was left before `finish`, the entries of a returned record are all top-level navigations from the arming one on, then the page's own hash, with the times given; and catalog or root after arming makes `finish` throw |
| HashObserver.ArrivalsAreNavigations | scripts/testbed/fast-route-stress-sale.ts:1735-1753 | what reaches the observer is every navigation of the top level with a page address, each once, in order |
| HashObserver.UnarmedCanFinish | scripts/testbed/fast-route-stress-sale.ts:1783-1811 | without any navigation `finish` returns on the success page, though the observer was never armed |
| EvidenceManifest.ValidateArtifacts | scripts/testbed/full-workflow-evidence-manifest.ts:508-548 | the loop over a track's files keeps the acceptable ones in order and records one refusal for each of the others |
| EvidenceContents.SelectedAreBest | scripts/testbed/full-workflow-evidence-manifest.ts:387-433 | the selected screenshots are as many as there are valid PNG files kept, up to three: different files, best first by score and then path, each ahead of every one left out |
| EvidenceContents.TrackContents | scripts/testbed/full-workflow-evidence-manifest.ts:387-611 | everything recorded of a track: JSON files as diagnostics and nonempty logs, each once in the files' order, all screenshots best first, the report, and the embedded sections by file and path |
| EvidenceContents.KeptAreTheAcceptable | scripts/testbed/full-workflow-evidence-manifest.ts:487-571 | the kept files are the readable ones that are what their names say, in order, and none if the tree is untrusted or changed |
| EvidenceContents.TrackFailsUnless | scripts/testbed/full-workflow-evidence-manifest.ts:461-571 | a track has no failure iff report and tree are to be had, every file is acceptable, and none changed |
| EvidenceManifest.BuildTrack | scripts/testbed/full-workflow-evidence-manifest.ts:470-611 | the evidence, records, sections and failures of one track, whose contents the rows above tell |
| EvidenceManifest.Finish | scripts/testbed/full-workflow-evidence-manifest.ts:640-677 | `ok` iff no track failed, no record is over its limit and the total is within 32 MiB |
| EvidenceManifest.BuildManifest | scripts/testbed/full-workflow-evidence-manifest.ts:445-678 | the loop over the tracks builds the specified manifest |
| EvidenceContents.ManifestsJoin | scripts/testbed/full-workflow-evidence-manifest.ts:455-678 | the manifest of two lists of tracks holds what those of each hold, one behind the other, and the byte totals add |
| EvidenceContents.OneTrack | scripts/testbed/full-workflow-evidence-manifest.ts:455-678 | the manifest of one track holds its evidence, its records and their bytes |
| EvidenceContents.TotalsAreCardinalities | scripts/testbed/full-workflow-evidence-manifest.ts:659-672 | the totals are the numbers of tracks and of records of each kind |
| EvidenceManifest.ValidateTrack | scripts/testbed/full-workflow-evidence-manifest.ts:712-775 | no failure iff the entry is complete, owns every path it names and selects at most three screenshots |
| EvidenceManifest.ValidateManifest | scripts/testbed/full-workflow-evidence-manifest.ts:680-835 | no failure iff every entry, record, section, limit and the byte total passes |
| EvidenceContents.PassingManifestIsBacked | scripts/testbed/full-workflow-evidence-manifest.ts:680-835 | in a manifest without failures every path that a track is judged by has a record of that track, with a digest and within its limit; passed tracks have a report and at most three screenshots, failed ones a reason; the files total at most 32 MiB |
| EvidenceManifest.OkManifestPasses | scripts/testbed/full-workflow-evidence-manifest.ts:445-835 | an `ok` manifest passes the validator iff there are tracks, each with a string key, each failed one with a reason that is not blank |
| EvidenceManifest.NothingIsLost | scripts/testbed/full-workflow-evidence-manifest.ts:387-592 | a track without a failure records every file of its tree under the kind of its extension, but for empty logs |
| EvidenceManifest.EmptyManifestIsOkButRefused | scripts/testbed/full-workflow-evidence-manifest.ts:657-709 | with no tracks the builder says `ok` and the validator refuses |
| EvidenceManifest.BuildAndValidate | scripts/testbed/full-workflow-evidence-manifest.ts:445-835 | the two procedures run one after the other agree in that way, and a manifest that is not `ok` is always refused |
| Wav.ParseWavPcm | scripts/testbed/default-audio-evidence.ts:34-102 | the reader's loop returns what the recursive reading returns, error for error |
| WavGrammar.ParseAcceptsExactlyWav | scripts/testbed/default-audio-evidence.ts:34-102 | the reader returns a capture iff the file is a RIFF/WAVE header with the right size and padded chunks, of which one format and one data chunk describe that capture consistently |
| Wav.WriteWav | scripts/testbed/fake-vm-host-adapter.ts:238-259 | for any stereo frames, the buffer filled field by field and sample by sample holds the specified layout |
| Wav.WrittenIsRead | scripts/testbed/fake-vm-host-adapter.ts:235-265 | the reader gives back the frame count, the format fields and the sample bytes of every file that is written |
| WavInspection.ReaderIsWellFormed | scripts/testbed/default-audio-evidence.ts:80-101 | every capture the reader returns is safe to inspect: whole frames, and sizes that agree |
| WavInspection.MagnitudeIsDistance | scripts/testbed/default-audio-evidence.ts:24-32 | in every sample width, the magnitude is the distance of the little-endian value from the nearest multiple of the sample range, or for eight bits from the middle |
| WavInspection.PeakOfChannelsIsLargest | scripts/testbed/default-audio-evidence.ts:140-150 | a frame's peak is the largest magnitude of its channels |
| WavInspection.WindowPeakIsLargest | scripts/testbed/default-audio-evidence.ts:151 | a window's peak is its largest frame peak |
| WavInspection.InspectParsedWavPcm | scripts/testbed/default-audio-evidence.ts:104-187 | over any window, the nested loops report the frames whose time overlaps it: their number and duration, the loud ones, the peak, the different peaks, the normalised bounds, and the verdict on these measures; nothing iff no frame overlaps |
| WavInspection.InspectionTells | scripts/testbed/default-audio-evidence.ts:118-186 | the same of the specification: duration times rate is 1000 times the frames, and the four comparisons are with the reported measures |
| WavInspection.InspectedFramesOverlapTheWindow | scripts/testbed/default-audio-evidence.ts:118-133 | a frame is inspected iff the time it lasts overlaps the window |
| WavInspection.AdjacentLoudness | scripts/testbed/default-audio-evidence.ts:152-155 | adjacent windows add their loud frames and join their magnitudes |
| WavInspection.AdjacentPeak | scripts/testbed/default-audio-evidence.ts:151 | the peak of adjacent windows is the larger one |
| WavInspection.PassIsKeptIff | scripts/testbed/default-audio-evidence.ts:104-187 | at a sample rate and number of frames, every capture and threshold that passes in one window passes in another iff the other inspects every frame of the one |
| WavInspection.ContainedKeepsPassIff | scripts/testbed/default-audio-evidence.ts:118-187 | a window contained as asked for keeps every pass iff it inspects nothing, or nothing behind the last frame of the other; always, when it does not end before it starts |
| WavInspection.ContainedPassIsLost | scripts/testbed/default-audio-evidence.ts:118-187 | the failing input, a window from 5.5 ms to 1 ms within one from 0 to 1 ms; and one that keeps the pass though its bounds lie outside |
| WavInspection.MoreFramesKeepPassing | scripts/testbed/default-audio-evidence.ts:134-187 | inspecting at least the same frames lowers no measure and keeps a pass |
| WavInspection.WideningKeepsPassing | scripts/testbed/default-audio-evidence.ts:104-187 | in particular, a window that covers another in the bounds it reports is at least as large in every measure, and passes if the other does |
| WavInspection.SampleAt | scripts/testbed/fake-vm-host-adapter.ts:257-258 | the samples of a frame are read back from its place in the data |
| WavInspection.ToneIsReported | scripts/testbed/fake-vm-host-adapter.ts:252-259 | the written tone of four or more frames is reported with every frame loud, peak 2048 and four magnitudes |
| WavInspection.ToneVerdict | scripts/testbed/default-audio-evidence.ts:161-168 | the tone passes iff it has enough frames and lasts long enough and four magnitudes suffice |
| WavInspection.SilenceIsSilent | scripts/testbed/fake-vm-host-adapter.ts:254-255 | written silence never passes a threshold with a positive peak |
| WavInspection.DefaultCaptures | scripts/testbed/fake-vm-host-adapter.ts:238-259 | the fake host's tone of 24000 frames passes the default threshold, one frame fewer does not, and silence does not |
| JournalCursor.BoundaryIdHoldsSequence | scripts/testbed/environment-control-guest-full.ts:422-423 | the sequence number that a boundary id ends in is read back from it |
| JournalCursor.CursorIsExactIff | scripts/testbed/environment-control-guest-full.ts:515-567 | on a strictly increasing journal, a cursor of a nonempty window returns exactly the appended frames still shown, iff some are shown, or nothing is, or no earlier retained frame shares the last one's identity |
| JournalCursor.CursorIsExact | scripts/testbed/environment-control-guest-full.ts:438-567 | with distinct identities it always does, also from an empty window |
| JournalCursor.FramesSinceFallsBack | scripts/testbed/environment-control-guest-full.ts:515-567 | in any window: the later-numbered frames in order; without one, those behind the first frame of the cursor's identity; without that, those captured later; without one, those behind the count |
| JournalCursor.FramesSinceByCount | scripts/testbed/environment-control-guest-full.ts:559-566 | a position without a sequence number is a count: the frames behind it, or all of them when it is no count of theirs |
| JournalCursor.SharedIdentityRepeatsAFrame | scripts/testbed/environment-control-guest-full.ts:537-540 | two frames with one identity: a frame already seen is returned again |
| JournalCursor.NumberedFramesAreDistinct | scripts/testbed/environment-control-guest-full.ts:426-436 | frames whose boundary id ends in their sequence have distinct identities |
| JournalCursor.PollingCollectsEachFrameOnce | scripts/testbed/environment-control-guest-full.ts:438-567 | over any run of polls, collected plus missed frames make up all that was appended, and with none missed the collected frames are the journal in order |
| JournalCursor.BoundaryIffIncreasing | scripts/testbed/fast-route-stress-sale.ts:389-404 | a boundary is taken iff the ids are positive and strictly increasing |
| JournalCursor.BoundaryIsExact | scripts/testbed/fast-route-stress-sale.ts:417-455 | within one generation, a boundary returns exactly the entries appended since that a later snapshot still shows |
| JournalCursor.BoundarySelects | scripts/testbed/fast-route-stress-sale.ts:417-463 | a boundary put to any later snapshot: the numbered entries behind its last id within the generation, those later than its instant in another, and errors exactly for a missing generation or a needed instant that is missing |
| JournalCursor.RestartSelectsByTime | scripts/testbed/fast-route-stress-sale.ts:456-462 | after a restart, exactly the numbered entries later than the boundary are returned, and one without an instant is an error |
| DispenseFrame.Crc8 | scripts/testbed/delayed-pickup-native-audio-evidence.ts:123-131 | the nested loops compute the CRC-8 register over the bytes |
| CrcAnswers.StepDivides | scripts/testbed/delayed-pickup-native-audio-evidence.ts:127-128 | a step divides by the polynomial with the terms 8, 2, 1 and 0 |
| CrcAnswers.FirstCell | scripts/testbed/delayed-pickup-native-audio-evidence.ts:123-151 | a known answer: the command of the first cell is 55 01 01 12 |
| DispenseFrame.ByteStepInjectiveInState | scripts/testbed/delayed-pickup-native-audio-evidence.ts:126-128 | a byte step never merges two states |
| DispenseFrame.OneByteIsDetected | scripts/testbed/delayed-pickup-native-audio-evidence.ts:123-131 | changing one byte of a list of any length changes its CRC |
| DispenseFrame.CrcLeavesZero | scripts/testbed/delayed-pickup-native-audio-evidence.ts:123-131 | a list followed by a byte has CRC zero iff the byte is the list's CRC |
| DispenseFrame.EncodeOfDecode | scripts/testbed/delayed-pickup-native-audio-evidence.ts:142 | lower-case hexadecimal text is the encoding of the bytes decoded from it |
| DispenseFrame.ValidDispenseCommand | scripts/testbed/delayed-pickup-native-audio-evidence.ts:138-151 | accepts exactly the texts that are, up to letter case, the command of a cell of the machine |
| DispenseFrame.CommandsDifferTwice | scripts/testbed/delayed-pickup-native-audio-evidence.ts:145-150 | two commands that agree in three bytes are equal |
| DispenseFrame.OneByteTamperIsRefused | scripts/testbed/delayed-pickup-native-audio-evidence.ts:138-151 | changing one byte of an accepted command makes it refused |
| DispenseFrame.CollapseRepeated | scripts/testbed/delayed-pickup-native-audio-evidence.ts:171-190 | for the repeated codes the groups, joined, are the matching frames in order, with gaps within the window inside a group and beyond it between groups; other codes are only filtered |
| DispenseFrame.GroupingIsUnique | scripts/testbed/delayed-pickup-native-audio-evidence.ts:178-189 | there is only one such grouping |
| DispenseFrame.OneGroupIffRepetition | scripts/testbed/delayed-pickup-native-audio-evidence.ts:178-189 | there is one group iff there are frames and none is late |

## Left out

- Input and output: files, processes, signals, sockets, the debugging protocol and timers are events, callbacks or parameters; a clock is a parameter that may fail and, where a property needs it, does not run back.
- Decompression, SHA-256, `JSON.stringify` and the text redaction are parameters. The display inspection assumes of decompression only that the result is given; the manifest assumes that digests have their form; the binding assumes that printing does not confuse the two manifests; idempotence of sanitising assumes that text redaction is idempotent and fixes the markers.
- DisplayEvidence.InspectPng: a challenge's colour and region are integers, as no property is about other values.
- TrackLifecycle.RunSerialTrackLifecycle: progress and clock callbacks do not throw, and error texts, timestamps and the sanitised copies in an entry are not modelled.
- EvidenceManifest.BuildTrack: warnings and the per-track evidence policy are left out, as they do not enter `ok` or the validator; error texts are reduced to their kinds; reading an embedded log does not throw.
- EvidenceManifest.ValidateManifest: a manifest has the types that the builder gives it, so the checks for malformed tracks, records and lists are left out, and so are `businessStatus` values other than the two; failures are counted and their texts left out.
- EvidenceManifest.BuildManifest: the warnings of the manifest are left out, as those of its tracks.
- EvidenceContents.SelectedAreBest: the locale's order of paths is a rank given with each file.
- HashObserver.Observe: URL parsing is a parameter that answers yes, no or throws; `throwIfFailed` reads the same failure as `assertArmed` and is left out.
- HashObserver.ValidateContinuousHash: the record has the shape that the observer gives it, with texts for timestamps; other JSON types are left out.
- Sanitizer.SanitizeValue: which keys are sensitive is a parameter, as is the redaction of texts.
- OwnedProcess.Drive: the close of a stream is an event that the source does not listen to; the host is not Windows, the pipes exist, and text decoding and trimming of the returned bytes are left out.
- OutputCapture.BoundedOutputCapture.Finish: decoding the bytes as UTF-8 belongs to the redaction parameter.
- WavInspection.PassIsKeptIff: stated over exact real times, and over captures of any rate and length, also beyond the 32-bit fields of a file.
- WavInspection.InspectParsedWavPcm: times are real numbers, so rounding of the frame bounds and of the duration is not modelled; thresholds are numbers.
- Wav.WriteWav: the writer's two fixed captures are instances of it; the capture's name is its digest and is not modelled.
- JournalCursor.CursorIsExactIff: sequence numbers are unbounded, where the source loses precision beyond 2^53; frames are objects whose fields, if present, are texts.
- DispenseFrame.CollapseRepeated: frames carry the instant their timestamp denotes. The timing comparison at scripts/testbed/delayed-pickup-native-audio-evidence.ts:373-378 subtracts the expected delay outside the absolute value, so it bounds lateness only; no two-sided tolerance is claimed.
- CanonicalJson.BindDecidesSameParts: the identity checks are a parameter, and the digest of the bound text is left out.
- The MP3, OGG and WebP validators and the WAV validator of the cutover script would add only easier members of the same kind.
- The guest runners' scripted flows, polling waits, argument parsing, registry tables and copy checks have no state worth an invariant.
