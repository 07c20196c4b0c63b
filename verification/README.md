# ward: a verified model of its stateful cores

ward is a control plane for microVMs. This project models the parts of it whose
promises range over whole streams, whole archives or whole runs, and proves
those promises.

**Archives** (`ward-archive`). A streaming guard checks every tar header before
the tar reader sees it. Two further checks decide, without a filesystem, whether
unpacking an archive could go through a symlink. The packer flattens a tree into
entries under caps, and `ward cp` re-roots such a stream.

- `TarFormat`, `HeaderGuard`: the guard as a class over a 512-byte array, proved
  against a byte-at-a-time function and against a block-at-a-time scan.
- `GuardSync`: a reader that honours PAX `size` records and GNU extended sparse
  blocks, and the proof that the guard and that reader agree on every header.
- `GuardVerdict`: exactly which streams the guard refuses, at which byte and why.
- `Paths`, `SymlinkTrail`, `Acceptance`: what the entry checks accept, said as a
  property of the archive.
- `Replay`: a filesystem that follows symlinks, and the proof that a checked
  archive never makes it follow one.
- `Pack`, `PackReplay`, `PackTrail`, `PackChecks`: packing, re-rooting, unpacking
  again, and exactly which trees pass the checks once they are packed.
- `Scan`: the progress offsets and the running totals of a validation.

**Calendar** (`ward-cli`, `ward-agent`). `Calendar` proves the closed form of
`civil` against the Gregorian calendar counted year by year, and the loop of
`month_day` against the closed form. `Rfc3339` says for exactly which seconds
the printed text is a timestamp of RFC 3339.

**Agent** (`ward-agent`). `ExecProtocol` is one exec as interleaved steps of two
pumps, a bounded queue, a writer and the wait for the child. `Framing`, `Protobuf` and
`ChunkPipes` are the frame codec, the field encoding it carries, and the chunk
pipes of uploads and downloads. `IoLedger`, `Listing` and `LimitWrites` are the
I/O counters, the bounded process listing and the limit writes with rollback.

**Bundle** (`ward-bundle`). `Extraction` is `extract_libs` run by any number of
processes that may crash between any two system calls.

**Client output** (`ward-cli`). `LogLines`, `LogPrinter` and `LogRuns` are `ward
logs` with its tail and timestamps. `Escape` is the path escaper of `ward diff`.

Objects that the source updates in place are classes; each method is proved
against a function on values, and the lemmas are about that function. Integers
are unbounded except where the source's width matters: sizes and totals are 64
bits wide and saturate as the source's do. The arithmetic of `civil` stays far
inside 64 bits for every 64-bit input, so it is stated over all integers.

## Where the code and its documentation differ

The model follows the code in each case.

- `read_frame` says only a stream that ends between frames is a clean end. A
  stream cut inside the four length bytes is a clean end too (`NextOfCut`).
- `limits::apply` says a refusal changes nothing. That holds where a controller is
  missing. A later failure can leave a controller switched on exactly when the
  request asks for one that is not on yet (`FailureLeavesSwitchesExactly`). It can
  leave a changed file, up to surrounding whitespace, exactly then or when a limit
  before the last one is new (`FailureChangesExactly`).
- `feed` reports an upload without its end frame as an error. It reports success
  if the unpacker is gone and a further chunk arrives before the cut
  (`CutUpload`, `MissingEndCanPass`).
- `relay` says the daemon's failure is the one reported. It is missed if the
  unpacker has left and a further chunk arrives before the failure
  (`RelayExactly`, `BrokenStreamCanPass`).
- `escape` says its result decodes to the exact bytes. It does so exactly for
  paths that hold no byte C2 followed by a byte from 80 to 9F
  (`DecodesExactly`, `C1Collides`).
- `extract_libs` calls itself idempotent. After a successful extraction a later
  call succeeds exactly when the published directory is not writable by group or
  other, which its maker's umask decides (`LaterCallSucceedsExactly`,
  `LooseUmaskIsRefused`, `StrictUmaskIsRefused`).
- `rfc3339` gives a timestamp of RFC 3339 only for the years 0 to 9999
  (`TextReadsBackExactly`).

## Model

| member | source | states |
|---|---|---|
| `GuardSync.GuardStaysInStep` | ward-archive/src/lib.rs:663-776 | On every stream the guard accepts, at every offset, the guard expects a header if and only if a reader honouring PAX `size` and extended sparse blocks expects one there |
| `GuardSync.EveryHeaderIsJudged` | ward-archive/src/lib.rs:702-746 | In an accepted stream every block such a reader takes for a header is zero, or has a right checksum, a readable size, a capped size if it is an extension header, and is no sparse file when sparse files are refused |
| `GuardSync.JudgedPaxSetsNoSize` | ward-archive/src/lib.rs:764-776 | A PAX body the guard lets through sets no size for a reader that takes the last readable `size` record |
| `HeaderGuard.JudgePaxExactly` | ward-archive/src/lib.rs:764-776 | A PAX body passes if and only if every record is well formed and none has the key `size`; otherwise the first bad record gives the reason |
| `GuardVerdict.GuardRefusesExactly` | ward-archive/src/lib.rs:663-776 | For every stream: the guard refuses it if and only if some header a reader expects is unsafe or some whole PAX body holds a malformed or `size` record; it stops at the last byte of such a block or padded body, for that fault's reason, having accepted all before it |
| `GuardVerdict.RefusalIsDeserved` | ward-archive/src/lib.rs:663-776 | A refused stream has a fault of the given reason that ends at the refusing byte |
| `GuardVerdict.AcceptedHasNoFault` | ward-archive/src/lib.rs:663-776 | An accepted stream has no fault at any header a reader expects |
| `GuardVerdict.HeaderIsJudged` | ward-archive/src/lib.rs:702-746 | A header block is refused only for what is wrong with it, and otherwise is safe |
| `GuardVerdict.BodyRefusal` | ward-archive/src/lib.rs:748-776 | A refusal from the start of a body on is of the PAX body itself, at its last padding byte, or of what follows the body |
| `GuardVerdict.SparseRefusal` | ward-archive/src/lib.rs:702-708 | A run of extended sparse blocks is never refused itself |
| `GuardSync.BodyThenHeader` | ward-archive/src/lib.rs:663-700 | From the start of a body, in a stream the guard accepts, the guard is next at a header exactly where the padded body ends |
| `GuardSync.BodyEnds` | ward-archive/src/lib.rs:748-776 | An accepted padded body leaves the guard fresh, and if it was a PAX body it set no size |
| `GuardSync.AfterBlock` | ward-archive/src/lib.rs:663-746 | A whole block of an accepted stream is judged without refusal, and every longer prefix continues from the state it left |
| `GuardSync.InsideBlock` | ward-archive/src/lib.rs:663-700 | Inside a block the guard is at a header only before its first byte |
| `GuardSync.SparseThenBody` | ward-archive/src/lib.rs:702-708 | A run of extended sparse blocks is passed over whole, and the body starts where the run ends |
| `GuardSync.HeaderThenBody` | ward-archive/src/lib.rs:702-746 | After an accepted header the body starts where the reader starts it, and the header met every check |
| `GuardSync.EntryThenHeader` | ward-archive/src/lib.rs:663-776 | One accepted entry later, the reader's next header and the guard's next header are at the same offset |
| `HeaderGuard.FeedSplit` | ward-archive/src/lib.rs:663-762 | Observing x followed by y gives the state, refusal and refusing offset of observing the concatenation, for every x and y |
| `HeaderGuard.FeedIsBatch` | ward-archive/src/lib.rs:663-762 | Byte-at-a-time observation equals a scan that takes whole blocks and whole bodies of the complete string |
| `HeaderGuard.RunDeliversPrefix` | ward-archive/src/lib.rs:779-792 | Over every run of reads and read errors the delivered bytes are a prefix of the inner stream, all of it while nothing is refused, and never the byte whose arrival made the guard refuse |
| `HeaderGuard.FailedStaysFailed` | ward-archive/src/lib.rs:779-792 | After a refusal no later read delivers a byte or changes the verdict |
| `HeaderGuard.PaxBufferIsBounded` | ward-archive/src/lib.rs:663-700 | On every stream the PAX buffer holds at most the extended-header cap, also at the byte where a PAX body is refused |
| `HeaderGuard.StepKeepsWellFormed` | ward-archive/src/lib.rs:663-762 | Every byte keeps the invariant: a partial block, a positive body remainder, a PAX buffer within the cap and empty outside PAX bodies |
| `HeaderGuard.FeedFillsBlock` | ward-archive/src/lib.rs:666-675 | Bytes short of a block are buffered and change nothing else |
| `HeaderGuard.FeedFinishesBlock` | ward-archive/src/lib.rs:666-675 | The byte that fills a block triggers the judgement of exactly that block, and a refusal is placed at that byte |
| `HeaderGuard.FeedInsideBody` | ward-archive/src/lib.rs:676-697 | Bytes short of the end of a body only count down and, in a PAX body, collect the data bytes and not the padding |
| `HeaderGuard.FeedFinishesBody` | ward-archive/src/lib.rs:676-697 | The last byte of a PAX body has its collected records judged; the end of any other body leaves a fresh guard |
| `HeaderGuard.HeaderGuard.constructor` | ward-archive/src/lib.rs:650-661 | A new guard is fresh and has no verdict |
| `HeaderGuard.HeaderGuard.Observe` | ward-archive/src/lib.rs:663-700 | The in-place loop over slices ends in the state, or with the refusal, that byte-at-a-time observation gives |
| `HeaderGuard.HeaderGuard.FillBlock` | ward-archive/src/lib.rs:666-675 | One turn of the loop outside a body takes at least one byte and does what byte-at-a-time observation of those bytes does |
| `HeaderGuard.HeaderGuard.PassBody` | ward-archive/src/lib.rs:676-697 | One turn inside a body takes at least one byte and does what byte-at-a-time observation of those bytes does |
| `HeaderGuard.HeaderGuard.Read` | ward-archive/src/lib.rs:779-792 | One read of the class is one read step of the modelled stream, for data, end, inner error and refusal |
| `TarFormat.HeaderSumIsBlankedSum` | ward-archive/src/lib.rs:794-809 | The checksum is the plain byte sum of the block with spaces in the checksum field, so it does not depend on that field |
| `Replay.CheckedArchiveStaysInside` | ward-archive/src/lib.rs:515-568 | For every archive that passes both checks, under either case rule, after unpacking any prefix into an empty root the known links cover every live symlink, and the next entry, looked up along all its components and those of its hardlink target, follows no symlink and ends at root plus its normal components |
| `Replay.AcceptedEntryStaysInside` | ward-archive/src/lib.rs:520-553 | If the trail covers all live symlinks and accepts an entry with contained paths, then no lookup of it or of its hardlink target follows a symlink or climbs out, and only its own path and missing ancestors are written |
| `Replay.UnpackKeepsLinksKnown` | ward-archive/src/lib.rs:521-547 | Unpacking an accepted entry keeps the invariant that the folded path of every live symlink, hardlinks to symlinks included, is in the trail |
| `Replay.UnpackWritesOnly` | ward-archive/src/lib.rs:549-553 | An entry that crosses no known link changes its own path and adds only missing ancestor directories |
| `Replay.NewSymlinkIsRecorded` | ward-archive/src/lib.rs:526-541 | Whenever unpacking leaves a symlink, by symlink entry or by hardlink to one, the trail has its folded path |
| `Replay.LinkTargetStaysInside` | ward-archive/src/lib.rs:851-858 | A contained hardlink target that crosses no known link is looked up at its own normal components or not found, never elsewhere |
| `Replay.ContainedLookup` | ward-archive/src/lib.rs:875-878 | A path with contained components only is looked up, for creating and for linking, as its normal names in order |
| `Replay.TrailAloneIsNotEnough` | ward-archive/src/lib.rs:851-858 | The entry check is needed: a hardlink to `../s` passes the symlink check and is looked up outside the root |
| `Replay.CheckedIsContained` | ward-archive/src/lib.rs:828-858 | An entry that passes both checks has contained paths |
| `Replay.ParentStaysInside` | ward-archive/src/lib.rs:549-553 | The parent of an entry that crosses no known link is its own parent path, or a non-directory is in the way |
| `Replay.NotCrossingIsClear` | ward-archive/src/lib.rs:549-568 | Not crossing a folded link means no ancestor is a live symlink under either case rule |
| `Replay.WalkStraight` | ward-archive/src/lib.rs:556-560 | A kernel-style lookup along a path with no symlink in it ends at that path or fails, and never leaves it |
| `Replay.MakeDirsStraight` | ward-archive/src/lib.rs:556-560 | Creating parents along such a path adds only directories of that path |
| `Acceptance.AcceptsExactly` | ward-archive/src/lib.rs:470-482 | Both checks accept an archive if and only if each entry is clean by itself, none is reached or linked through a symlink an earlier entry leaves, and entry count and total size meet the caps |
| `Acceptance.EntryAccepted` | ward-archive/src/lib.rs:811-869 | `check_entry` accepts exactly the clean entries whose new totals are within the caps, and leaves those totals |
| `SymlinkTrail.HasSetIdExactly` | ward-archive/src/lib.rs:858-868 | The mode test holds if and only if the set-user-id or the set-group-id bit is set |
| `SymlinkTrail.TrailRefusesExactly` | ward-archive/src/lib.rs:515-554 | The trail refuses an archive if and only if some entry path or hardlink target lies, ignoring ASCII case, below a symlink left earlier; and its set is exactly the places where symlinks were left |
| `SymlinkTrail.CrossesIffBelow` | ward-archive/src/lib.rs:549-553 | The ancestor test is true exactly when an earlier symlink sits strictly above the path |
| `SymlinkTrail.TrailStep` | ward-archive/src/lib.rs:521-547 | One entry is refused exactly when it goes through an earlier symlink, and an accepted one keeps the set exact |
| `SymlinkTrail.CheckAllSplit` | ward-archive/src/lib.rs:470-482 | Checking an archive in two parts, the second with what the first left, gives the answer for the whole |
| `SymlinkTrail.Totals.CheckEntry` | ward-archive/src/lib.rs:811-869 | The in-place check accepts, refuses with the same error, and counts as the function whose acceptance condition is proved; a refused entry counts too, and its size once it was added up |
| `SymlinkTrail.CountComponents` | ward-archive/src/lib.rs:828-837 | One pass over the components finds whether all are contained and how many are names |
| `SymlinkTrail.Symlinks.Crosses` | ward-archive/src/lib.rs:549-553 | The walk over ancestors answers whether some proper ancestor is a known link |
| `SymlinkTrail.Symlinks.Check` | ward-archive/src/lib.rs:521-547 | The in-place check refuses and records as the function whose exact refusals are proved |
| `Paths.JoinAddsName` | ward-archive/src/lib.rs:556-560 | Joining a file name to a path adds that one name and nothing else to its normal components |
| `Paths.FoldAlikeExactly` | ward-archive/src/lib.rs:560-570 | Two names fold alike if and only if they are equally long and differ at most in the case of the letters A to Z |
| `Paths.PartsSnoc` | ward-archive/src/lib.rs:556-560 | A slash and a name at the end of any path add exactly one component |
| `Paths.ContainedShape` | ward-archive/src/lib.rs:875-878 | A path with contained components only is its normal names, perhaps after one leading dot |
| `Pack.PackWritesFlatten` | ward-archive/src/lib.rs:289-348 | A walk succeeds if and only if the whole tree fits depth, entry and byte caps, and then has written exactly the preorder entries of the tree without special files |
| `Pack.PackTreeWritesFlatten` | ward-archive/src/lib.rs:302-348 | The same for one child and everything below it |
| `Pack.PackStaysUnderCaps` | ward-archive/src/lib.rs:219-247 | A packed directory is its uncounted root header followed by the preorder entries: at most one more than the entry cap, and within the byte cap when that cap is below the 64-bit maximum |
| `Pack.Walk.Write` | ward-archive/src/lib.rs:287-299 | One entry is counted and written, or the cap it would exceed is named |
| `Pack.Walk.AppendTree` | ward-archive/src/lib.rs:302-348 | The recursive in-place walk writes, counts and stops as the function on values does |
| `PackReplay.PackedDirReplays` | ward-archive/src/lib.rs:219-247 | Unpacking a packed directory into an empty root gives back the tree without special files, for every tree whose siblings that root tells apart |
| `PackReplay.PackedDirPassesTrail` | ward-archive/src/lib.rs:302-348 | A packed directory passes the symlink check when its siblings differ beyond ASCII case |
| `PackTrail.PackedDirTrailExactly` | ward-archive/src/lib.rs:302-348 | For every tree, a packed directory passes the symlink check if and only if no node is listed after a symlink that sits, ignoring ASCII case, above it |
| `PackTrail.RenamedDirTrailExactly` | ward-cli/src/cp.rs:469-494 | A renamed packed directory passes under the same condition on the tree, whatever the new name |
| `PackTrail.DistinctHasNoLinkAbove` | ward-archive/src/lib.rs:302-348 | Trees whose siblings differ beyond ASCII case meet that condition in any listing order |
| `PackTrail.TrailOfPlaces` | ward-archive/src/lib.rs:515-554 | Entries without hardlinks pass the symlink check if and only if none lies, ignoring ASCII case, below a symlink before it |
| `PackTrail.ForestStandsFor` | ward-archive/src/lib.rs:302-348 | The packer writes one entry per node in listing order, under the node's names, and a symlink entry exactly for a symlink |
| `PackTrail.TreeStandsFor` | ward-archive/src/lib.rs:302-348 | The same for one child and everything below it |
| `PackTrail.LinkBesideDirRefused` | ward-archive/src/lib.rs:302-348 | A symlink `a` listed before a directory `A` that holds a file is a valid tree where case counts, is packed, and is then refused by the symlink check |
| `PackReplay.RenamedDirReplays` | ward-cli/src/cp.rs:469-494 | Re-rooting a packed directory under a name and unpacking it gives the same tree under that name, for every tree whose siblings the root tells apart |
| `PackReplay.RenamedDirPassesTrail` | ward-cli/src/cp.rs:469-494 | A renamed packed directory passes the symlink check when its siblings differ beyond ASCII case |
| `PackReplay.RenamedIsFlattened` | ward-cli/src/cp.rs:469-494 | A packed directory renamed is that directory packed under the new name |
| `PackChecks.PackedDirAccepted` | ward-archive/src/lib.rs:219-247 | For every tree, a packed directory passes both checks if and only if its entries meet the limits on path, depth, size and set-id bits, the totals meet theirs, and no node is listed after a symlink that sits, ignoring ASCII case, above it |
| `PackChecks.RenamedDirAccepted` | ward-cli/src/cp.rs:469-494 | The same after it was renamed |
| `PackChecks.SnapshotAccepts` | ward-archive/src/lib.rs:200-207 | What `pack_dir` packs under its own caps passes the snapshot checks if and only if every path has at most 4096 bytes, it holds fewer entries than the entry cap, since the root header counts only there, and no node is listed after a symlink above it, ignoring ASCII case |
| `PackReplay.ForestReplays` | ward-archive/src/lib.rs:302-348 | Unpacking the entries of a directory's children adds exactly that subtree to a filesystem that has nothing in its place |
| `PackReplay.TreeReplays` | ward-archive/src/lib.rs:302-348 | The same for one child and everything below it |
| `PackReplay.ForestPassesTrail` | ward-archive/src/lib.rs:302-348 | The entries of a directory's children pass the symlink check and record links only below that directory |
| `PackReplay.TreePassesTrail` | ward-archive/src/lib.rs:302-348 | The same for one child and everything below it |
| `PackReplay.RenameRebasesForest` | ward-cli/src/cp.rs:469-494 | Re-rooting the entries of a subtree gives the entries the packer would have written under the new base |
| `PackReplay.RenameRebasesTree` | ward-cli/src/cp.rs:469-494 | The same for one child and everything below it |
| `PackReplay.RenameRootLoop` | ward-cli/src/cp.rs:469-494 | The loop over entries rewrites every path and nothing else, in order |
| `PackReplay.JoinRest` | ward-cli/src/cp.rs:474-486 | The loop over components appends each of them to the new root |
| `Scan.ScanEntries` | ward-archive/src/lib.rs:470-482 | One offset is reported per entry of the longest prefix that passes both checks, namely where its body starts plus its size, or the largest 64-bit number where that is more; the error is that of the first entry that fails |
| `Scan.OffsetCoversEntry` | ward-archive/src/lib.rs:183-190 | In an accepted copy stream, of an entry's bytes exactly its header and its body, which is as long as the header says, lie below the offset reported for it, and the rest up to the entry's end is padding |
| `Scan.ItemsAreEntries` | ward-archive/src/lib.rs:470-482 | Every entry the reader yields has the kind, size and place that the header block at its offset gives it |
| `Scan.OffsetsIncrease` | ward-archive/src/lib.rs:183-190 | On every stream without sparse files the reported offsets strictly increase and each lies within its own entry |
| `Scan.CopyHasNoSparse` | ward-archive/src/lib.rs:702-746 | A guard that refuses sparse files, as the copy that reports offsets sets it up, lets through no stream with a sparse entry |
| `Scan.NoHeaderBetween` | ward-archive/src/lib.rs:470-482 | In any stream, for an entry found in a prefix the guard accepts, no header lies after the entry's own header and before its end |
| `Scan.ItemsOfPrefix` | ward-archive/src/lib.rs:470-482 | The entries found in a prefix of a stream are the first entries of the whole stream |
| `GuardSync.ExpectsInPrefix` | ward-archive/src/lib.rs:663-776 | Up to the end of a prefix, a reader expects the same headers in it as in the whole stream |
| `Scan.BytesBelowOffsetsPassed` | ward-archive/src/lib.rs:183-190 | Once the copy's guard has accepted any prefix of any stream and the entries found in it passed, every header a reader ever expects below a reported offset is that of an entry that passed both checks with all before it, or is folded into the next entry, which passed too |
| `Scan.HeadersAreAccounted` | ward-archive/src/lib.rs:470-482 | Every header a reader passes up to an entry is that of the entry or of an earlier one, or is folded into the next of them |
| `Scan.ItemsAreInOrder` | ward-archive/src/lib.rs:470-482 | The reader's entries are disjoint, in order, and their bodies start inside the stream |
| `Scan.TotalsAreExact` | ward-archive/src/lib.rs:811-846 | Accepted archives meet the byte cap with the exact sum of sizes, not only the saturated one, when the cap is below the 64-bit maximum |
| `Calendar.CivilIsRight` | ward-cli/src/inspect.rs:605-632 | For every second count the fields are a real date and time, and counting seconds to them from 1970 gives the input back |
| `Calendar.CivilInverts` | ward-cli/src/inspect.rs:605-632 | Every real date and time is what its own second count gives, so the map is a bijection |
| `Calendar.CivilKeepsOrder` | ward-cli/src/inspect.rs:605-632 | Earlier seconds give earlier dates and times, and only they do |
| `Calendar.DateOfDaysIsRight` | ward-cli/src/inspect.rs:605-627 | For every day number the closed form gives a valid date whose year-by-year day count is that number |
| `Calendar.DayNumberKeepsOrder` | ward-cli/src/inspect.rs:605-627 | Day numbers order dates as the calendar does, and no two dates share one |
| `Calendar.SecondNumberKeepsOrder` | ward-cli/src/inspect.rs:605-632 | Second numbers order civil times as the calendar does, and no two share one |
| `Calendar.YearOfEraParts` | ward-cli/src/inspect.rs:611-614 | The corrected division finds the year of the era for every century, leap cycle, year and day in it |
| `Calendar.DateFromMarchIsRight` | ward-cli/src/inspect.rs:615-627 | The month formula counted from March gives a valid date with the right day number |
| `Calendar.MarchStartCountsYears` | ward-cli/src/inspect.rs:606-614 | The closed form for the first of March of a year equals the sum of year lengths |
| `Calendar.MonthDay` | ward-agent/src/top.rs:460-475 | The year-by-year loop prints the month and day that the closed form of the other crate gives, for every second since 1970 |
| `Calendar.TakeYears` | ward-agent/src/top.rs:460-466 | The year loop ends at the year and day of year whose day count is the input |
| `Calendar.TakeMonths` | ward-agent/src/top.rs:467-475 | The month loop ends at the month and day whose day count is the day of year |
| `Rfc3339.TextReadsBackExactly` | ward-cli/src/inspect.rs:634-640 | The printed text is a date-time of section 5.6 of RFC 3339 if and only if the second lies in the years 0 to 9999, and then it parses to that second |
| `Rfc3339.FourDigitYearsExactly` | ward-cli/src/inspect.rs:634-640 | The year has four digits exactly between two named second counts |
| `Rfc3339.ClockTextReadsBack` | ward-cli/src/inspect.rs:634-640 | With a four-digit year the text has the UTC form of a date-time and its fields read back |
| `Rfc3339.OddYearIsNoDateTime` | ward-cli/src/inspect.rs:634-640 | With any other year the text is no date-time of section 5.6 of RFC 3339, in any of its forms |
| `ExecProtocol.EveryRunIsOrdered` | ward-agent/src/lib.rs:880-988 | In every interleaving the frames are a prefix of what was queued, each stream's data is in read order, the queue keeps its bound, nothing follows an exit, and every exit queued or written announces how the exec went: the wait status with its code, or the code of a failed start |
| `ExecProtocol.CleanRunDeliversAll` | ward-agent/src/lib.rs:880-988 | If no write fails, a finished run wrote one exit, last, after every byte either pump read, and that exit announces the status the child was waited for with in this run, or the code of a start that failed |
| `ExecProtocol.NoProcessRun` | ward-agent/src/lib.rs:820-832 | Without a process nothing is ever queued but the message and then the exit with the given code; a clean finished run wrote both |
| `ExecProtocol.RunHasEnding` | ward-agent/src/lib.rs:964-979 | The ending on record is the failed start, or the status that waiting gave in this run |
| `ExecProtocol.ExitAnnounces` | ward-agent/src/lib.rs:762-771 | An exit event carries the wait status and bits 8 to 15 of it as the code, -1 after a signal, and after a failed wait -1 with the status of a plain exit |
| `ExecProtocol.StepKeepsEndingInv` | ward-agent/src/lib.rs:880-990 | Every step keeps that exits announce the ending and that without a process the line comes first |
| `ExecProtocol.NeverStuck` | ward-agent/src/lib.rs:880-988 | In every reachable unfinished state some step is possible |
| `ExecProtocol.RunsAreBounded` | ward-agent/src/lib.rs:665-693 | Every run's length is bounded by the number of reads that returned data |
| `ExecProtocol.StoppedReadsAreFew` | ward-agent/src/lib.rs:665-693 | Once the writer has stopped, each pump reads at most once more and the run ends within a fixed number of steps |
| `ExecProtocol.StepLowersRank` | ward-agent/src/lib.rs:665-693 | Every step but a read that returned data lowers the rank |
| `ExecProtocol.StepKeepsInv` | ward-agent/src/lib.rs:803-830 | Every enabled step keeps the protocol invariant |
| `ExecProtocol.StepKeepsQueueInv` | ward-agent/src/lib.rs:885-895 | Frames, the frame being written and the queue together are what was sent, until the writer fails |
| `ExecProtocol.StepKeepsStreamInv` | ward-agent/src/lib.rs:665-693 | Chunks sent, and the chunk a pump holds, are the chunks it read, in order |
| `ExecProtocol.StepKeepsExitInv` | ward-agent/src/lib.rs:968-986 | No exit event is queued while a pump can still send |
| `ExecProtocol.ReachableHasInv` | ward-agent/src/lib.rs:880-988 | Every reachable state has the invariant |
| `Extraction.EveryRunIsSafe` | ward-bundle/src/lib.rs:78-118 | With any number of processes crashing anywhere, the final directory is absent or holds both whole payloads, never changes once present, and every success names two whole libraries |
| `Extraction.StepKeepsInv` | ward-bundle/src/lib.rs:78-118 | Every step of every process keeps the invariant and a published directory |
| `Extraction.RunKeepsInv` | ward-bundle/src/lib.rs:78-118 | The same for every run from a state that has the invariant |
| `Extraction.LaterCallSucceedsExactly` | ward-bundle/src/lib.rs:78-118 | Once the libraries are published, a call that fails in no step of its own goes through fixed answers whatever umasks the processes have and whatever the others do: it succeeds if and only if the published directory is not writable by group or other, and is refused as not private otherwise |
| `Extraction.FailureFreeCallAnswers` | ward-bundle/src/lib.rs:77-118 | In every interleaving, a call none of whose own steps fails, but for a look that fails, a removal that fails or a rename that finds the libraries published, can always go on, answers within sixteen steps besides writing and removing, and answers with success, or with a refusal of a directory that group or other may write; never with an I/O failure |
| `Extraction.RenamingCallSucceeds` | ward-bundle/src/lib.rs:105-118 | In every interleaving, such a call that has staged its copies answers with success within four steps, whether its rename wins or another process published first |
| `Extraction.UnfailingRun` | ward-bundle/src/lib.rs:105-118 | However often it calls, a process whose own steps fail only where that must not matter never gets an I/O failure |
| `Extraction.CallIsBounded` | ward-bundle/src/lib.rs:77-118 | Every step of a call brings it closer to its answer, whatever the others do |
| `Extraction.FoundLibrariesAreVetted` | ward-bundle/src/lib.rs:90-97 | Libraries found in place, whoever made them, are used if and only if both of them and both directories are private |
| `Extraction.RenameReplacesOnlyEmpty` | ward-bundle/src/lib.rs:105-106 | A staged copy is renamed into place if and only if nothing, or an empty directory, is there |
| `Extraction.CanRemoveStaging` | ward-bundle/src/lib.rs:102-114 | Before staging and after a lost race the staging directory can be removed, its files first |
| `Extraction.UmaskDecides` | ward-bundle/src/lib.rs:78-118 | Where all directories are made under one umask, such a call succeeds exactly when that umask masks group and other write permission |
| `Extraction.SomeRunPublishes` | ward-bundle/src/lib.rs:78-118 | For every payload and umask there is a run from an empty start that publishes the libraries and calls again |
| `Extraction.LooseUmaskIsRefused` | ward-bundle/src/lib.rs:90-97 | Under a loose umask the process that extracted the libraries in that run is then refused them |
| `Extraction.StrictUmaskIsRefused` | ward-bundle/src/lib.rs:90-97 | A process with a strict umask is refused the libraries that one with a loose umask published |
| `Extraction.ReusingRun` | ward-bundle/src/lib.rs:90-97 | While a call reuses published libraries, its position follows from the number of its own steps in any interleaving |
| `Extraction.RunKeepsUmask` | ward-bundle/src/lib.rs:78-118 | Every staging and final directory of a run is writable by others exactly as the umask leaves it |
| `Extraction.PayloadsKeepInv` | ward-bundle/src/lib.rs:163-169 | Creating, filling and marking the payload files keeps the staging invariant and touches nothing shared |
| `Extraction.PublishKeepsInv` | ward-bundle/src/lib.rs:106-117 | The rename publishes only a directory with both whole payloads, and a lost race is told from a failure by looking again |
| `Framing.FramesReadBack` | ward-agent/src/lib.rs:115-173 | Reading the concatenation of written frames gives exactly those frames and a clean end |
| `Framing.TruncationYieldsPrefix` | ward-agent/src/lib.rs:115-143 | A wire cut anywhere gives the frames that are whole before the cut, then a clean end if fewer than four bytes are left over and an error otherwise |
| `Framing.NextOfEncode` | ward-agent/src/lib.rs:115-173 | Reading a written frame gives its payload and leaves what follows |
| `Framing.NextOfCut` | ward-agent/src/lib.rs:115-143 | A frame cut inside its length reads as a clean end and one cut later as an error |
| `Framing.BigEndianReadsBack` | ward-agent/src/lib.rs:115-173 | The four length bytes read back for every 32-bit length |
| `Framing.Reader.ReadFrame` | ward-agent/src/lib.rs:115-143 | The step-by-step reader returns and consumes what the function of the remaining bytes says |
| `Framing.Reader.ReadExact` | ward-agent/src/lib.rs:115-143 | Exactly the asked bytes are taken, or none are returned and the stream is used up |
| `Framing.Sink.WriteFrame` | ward-agent/src/lib.rs:154-173 | A frame is appended if and only if its payload is non-empty and within the cap; otherwise nothing is written and the error says why |
| `Protobuf.VarintReadsBack` | ward-agent/src/lib.rs:175-184 | Every variable-length integer reads back, whatever follows it |
| `Protobuf.VarintLength` | ward-agent/src/top.rs:15-23 | How many bytes lengths below each power take |
| `Protobuf.LenFieldReadsBack` | ward-agent/src/lib.rs:175-184 | A length-delimited field reads back |
| `ChunkPipes.ChunkWriter.Flush` | ward-agent/src/archive.rs:291-299 | The buffer becomes one chunk or is empty; it fails exactly when there is something to send and the receiver is gone |
| `ChunkPipes.ChunkWriter.Write` | ward-agent/src/archive.rs:280-289 | All data is added to what was written, every chunk sent is non-empty and shorter than twice the chunk size, and a failure means the receiver is gone and got a prefix |
| `ChunkPipes.ChunkReader.Read` | ward-agent/src/archive.rs:250-262 | Reads hand out the remaining bytes in order, and nothing only at the end or into an empty buffer |
| `ChunkPipes.ChunkReader.ReadRun` | ward-agent/src/archive.rs:250-262 | Any sequence of buffer sizes hands out the same stream, and all of it after enough non-empty reads |
| `ChunkPipes.CopyWriter.Write` | ward-cli/src/cp.rs:399-407 | At least one byte is taken from non-empty data and exactly what was taken is added; it fails only when the daemon is gone |
| `ChunkPipes.CopyWriter.WriteAll` | ward-cli/src/cp.rs:399-407 | Repeated writes add all the data while every message sent is full; after a failure the daemon is gone and got a prefix |
| `ChunkPipes.CopyWriter.Flush` | ward-cli/src/cp.rs:385-415 | After a flush the messages sent are all the data, in order, with at most one short last message; it fails exactly when something is left and the daemon is gone |
| `ChunkPipes.CopyWriter.SendBuffered` | ward-cli/src/cp.rs:385-396 | The buffer becomes one message or is lost with the daemon, and is empty either way |
| `ChunkPipes.ReadHead` | ward-cli/src/cp.rs:598-608 | The head and the chunks left are the stream, the head takes whole chunks until it holds a tar block or the stream ends, and it fails exactly when the stream breaks before a whole block |
| `ChunkPipes.StreamReader.Read` | ward-cli/src/cp.rs:705-717 | Reads hand out the head and then the chunks in order, and nothing only at the end or into an empty buffer |
| `ChunkPipes.StreamReader.ReadRun` | ward-cli/src/cp.rs:705-717 | Any sequence of buffer sizes hands out the same stream, and all of it after enough non-empty reads |
| `ChunkPipes.ReadDownload` | ward-cli/src/cp.rs:598-650 | Through the head and any buffer sizes, a consumer that may leave early reads a prefix of the chunks' bytes, and all of them after enough non-empty reads; the failure of a broken stream is reported exactly if the consumer takes all that is relayed |
| `ChunkPipes.RelayExactly` | ward-cli/src/cp.rs:627-649 | The consumer gets the chunks it takes, and a failing stream goes unnoticed exactly when the consumer leaves with a chunk still to come |
| `ChunkPipes.RelayLoop` | ward-cli/src/cp.rs:627-641 | The loop passes on and reports what the function on values does |
| `ChunkPipes.BrokenStreamCanPass` | ward-cli/src/cp.rs:627-649 | A stream that breaks after its consumer has left with a chunk to come passes for a success, whatever it held |
| `ChunkPipes.ChunkMessageReadsBack` | ward-agent/src/archive.rs:172-216 | The message around a chunk reads back to the chunk |
| `ChunkPipes.ChunkMessageFits` | ward-agent/src/archive.rs:200-216 | The message around a chunk of the writer is accepted by both ends of the frame codec |
| `ChunkPipes.DownloadReadsBack` | ward-agent/src/archive.rs:200-216 | Framing and reading the chunks of a download gives exactly those chunks and a clean end |
| `ChunkPipes.CutDownload` | ward-agent/src/archive.rs:200-216 | A download cut at any byte arrives as the chunks that lie whole before the cut |
| `ChunkPipes.WriteAndFlush` | ward-agent/src/archive.rs:219-231 | Any writes and a flush send their bytes in order as chunks, or a prefix once the receiver is gone |
| `ChunkPipes.Download` | ward-agent/src/archive.rs:191-231 | Any writes and a flush, framed, cut at any byte and read with any buffer sizes by a client that may leave early, give a prefix of the bytes written, and all of them if nothing is lost |
| `ChunkPipes.FeedOfUpload` | ward-agent/src/archive.rs:172-188 | The receiving loop on any number of an upload's frames passes on the chunks the unpacker takes, and succeeds exactly with the end frame or a chunk the unpacker no longer takes |
| `ChunkPipes.FeedExactly` | ward-agent/src/archive.rs:172-188 | On any frames at all the receiving loop passes on the leading chunks the unpacker takes, and ends with success, an unexpected frame or an incomplete upload by exactly what follows them |
| `ChunkPipes.CutUpload` | ward-agent/src/archive.rs:172-188 | An upload of any chunks whose frames can be written, cut at any byte, passes on a prefix of its chunks, and counts as a success if and only if nothing was cut or more chunks lie whole before the cut than the unpacker takes |
| `ChunkPipes.MissingEndCanPass` | ward-agent/src/archive.rs:178-182 | An upload of such chunks without its end frame counts as a success whenever the unpacker was done before its last chunk |
| `ChunkPipes.ReceiveUpload` | ward-agent/src/archive.rs:152-188 | A whole upload of such chunks, cut anywhere and read with any buffer sizes by an unpacker that may leave early, gives a prefix of its bytes, and all of them if nothing is lost |
| `ChunkPipes.PutArchive` | ward-core/src/backend/agent.rs:370-379 | The loops over chunks and pieces send the bytes of any chunks in order, as non-empty pieces of at most 1 MiB |
| `ChunkPipes.PiecesFit` | ward-core/src/backend/agent.rs:332-333 | Pieces of at most 1 MiB make frames that can be written |
| `ChunkPipes.UploadThrough` | ward-core/src/backend/agent.rs:357-384 | Any chunks, cut into pieces, framed, cut at any byte and read with any buffer sizes by an unpacker that may leave early, arrive as a prefix of their bytes, and whole if nothing is lost |
| `ChunkPipes.CutLosesAFrame` | ward-agent/src/lib.rs:115-143 | Any cut before the end loses at least one whole frame |
| `LogLines.LastLines` | ward-cli/src/log_output.rs:193-206 | The backward search returns the longest suffix that begins at a line start and has at most the asked lines |
| `LogPrinter.PrefixLines` | ward-cli/src/log_output.rs:159-170 | The line loop puts a stamp before each byte that begins a line, and says whether the next byte begins one |
| `LogPrinter.KeepTail` | ward-cli/src/log_output.rs:174-190 | The loop over chunks drops exactly the bytes before the tail and the chunks it empties |
| `LogPrinter.LogPrinter.RenderChunk` | ward-cli/src/log_output.rs:142-154 | One chunk is printed and its stream's line state updated as the function on values says |
| `LogPrinter.LogPrinter.Finish` | ward-cli/src/log_output.rs:82-92 | Ending the replay prints the held tail and leaves nothing held |
| `LogPrinter.LogPrinter.AcceptTimed` | ward-cli/src/log_output.rs:120-140 | A timed chunk is dropped, held or printed as the function on values says |
| `LogPrinter.LogPrinter.DaemonIsOld` | ward-cli/src/log_output.rs:107-118 | A chunk without a time ends the replay and warns at most once |
| `LogPrinter.LogPrinter.Accept` | ward-cli/src/log_output.rs:74-102 | One output changes the printer and prints as the function on values, about which the run lemmas are proved |
| `LogPrinter.RenderAppend` | ward-cli/src/log_output.rs:142-154 | Printing chunks in two batches prints what printing them in one does |
| `LogRuns.RunPrintsShown` | ward-cli/src/log_output.rs:74-140 | Any run, chunks with and without times, its replay ended by the marker, by a chunk without a time or by `finish`, prints exactly the tail of the replayed chunks that pass the time limits and then the later chunks that pass, and one warning just before what the first chunk without a time prints, if times were asked for |
| `LogRuns.WarnOnce` | ward-cli/src/log_output.rs:107-118 | From the first chunk without a time on there is one warning or none, and it comes first |
| `LogRuns.QuietRun` | ward-cli/src/log_output.rs:74-140 | Warnings aside, any run prints the chunks it shows, rendered in order |
| `LogRuns.UntimedEndsReplay` | ward-cli/src/log_output.rs:107-118 | A chunk without a time acts as a replay end before itself |
| `LogRuns.PlainRun` | ward-cli/src/log_output.rs:74-140 | Without timestamps each of those chunks is printed unchanged on its own stream, around the warning if there is one |
| `LogRuns.ShownIsInTime` | ward-cli/src/log_output.rs:120-131 | No run shows a chunk with a time before `--since`, or at or after `--until` |
| `LogRuns.PassingKeepsInTime` | ward-cli/src/log_output.rs:120-131 | Among any others a chunk is kept if and only if it has no time or its time is from `--since` on and before `--until` |
| `LogRuns.StampedRun` | ward-cli/src/log_output.rs:142-170 | With timestamps each stream is those bytes with one stamp per line, that of the chunk holding the line's first byte, with the warning somewhere on standard error if one is due; where all chunks have times, removing the stamps gives the bytes back |
| `LogRuns.StampsOncePerLine` | ward-cli/src/log_output.rs:142-170 | However chunks are cut and the streams interleave, a stream's output is its bytes with one stamp before each line; bytes without a time pass through |
| `LogRuns.StampsComeOff` | ward-cli/src/log_output.rs:159-170 | Removing everything up to the first space of each line undoes the stamping, for stamps that hold no space |
| `LogRuns.TailKeepsLastLines` | ward-cli/src/log_output.rs:174-206 | The kept chunks are the last lines of all held bytes, each byte on the stream it came from |
| `LogRuns.ReplayHolds` | ward-cli/src/log_output.rs:120-140 | During a replay nothing is printed and exactly the chunks within the time limits are held |
| `LogRuns.LivePrints` | ward-cli/src/log_output.rs:120-140 | After the replay exactly the chunks within the time limits are printed, at once |
| `LogRuns.SecondFinishPrintsNothing` | ward-cli/src/log_output.rs:82-92 | Ending the replay again changes nothing and prints nothing |
| `IoLedger.LedgerIsBatch` | ward-agent/src/stats.rs:38-70 | After any samples, none included, the total is the saturated sum, over the maximal runs of each process, of the run's last reading; a run is a stretch of samples in which neither counter goes down |
| `IoLedger.SteadyCountsOnce` | ward-agent/src/stats.rs:38-70 | A process that is in every sample and whose counters never go down adds its last reading to what the ledger shows without it, once |
| `IoLedger.Ended` | ward-agent/src/stats.rs:48-59 | The readings retired are exactly those of processes that are gone or have a lower counter |
| `IoLedger.EndingIsMaximalRun` | ward-agent/src/stats.rs:48-59 | The readings summed at a sample are exactly those of the runs that end there |
| `IoLedger.MaximalRunIsUnique` | ward-agent/src/stats.rs:48-59 | No two maximal runs of a process end at the same sample, so none is counted twice |
| `IoLedger.RetiredIsBatch` | ward-agent/src/stats.rs:48-59 | The retired counter is the saturated sum of the runs that ended before the last sample |
| `IoLedger.TotalNeverDecreases` | ward-agent/src/stats.rs:38-70 | Another sample, also the first, never lowers either total |
| `IoLedger.LiveIsCovered` | ward-agent/src/stats.rs:48-65 | What a sample replaces is covered by what it retires and what it brings |
| `IoLedger.TotalAnyOrder` | ward-agent/src/stats.rs:61-65 | The sum over a map does not depend on the order it is visited in |
| `IoLedger.IoLedger.Update` | ward-agent/src/stats.rs:48-59 | In any visiting order the update retires exactly the readings that vanished or went down and keeps the new sample |
| `IoLedger.IoLedger.TotalNow` | ward-agent/src/stats.rs:61-65 | In any visiting order the loop gives the saturated sum of retired and live readings |
| `Listing.List` | ward-agent/src/top.rs:259-297 | The rows are the longest prefix of the selected processes that fits the row and byte budgets |
| `Listing.AddUp` | ward-agent/src/top.rs:280-283 | The loop over fields counts every field's bytes and overhead |
| `Listing.ListingFitsAFrame` | ward-agent/src/top.rs:15-23 | Every listing with a query's titles and rows within the budgets encodes to a payload the frame writer accepts |
| `Listing.RowsAreWithinCost` | ward-agent/src/top.rs:15-23 | Encoded rows take at most their counted cost and four bytes a row |
| `Listing.QueryTitlesAreShort` | ward-agent/src/top.rs:65-100 | Every title a query can have takes at most seven bytes, and there are at most 32 of them |
| `Listing.AnswerTop` | ward-agent/src/lib.rs:433-447 | A listing is always written whole, whatever the processes; an error message is written exactly if it fits a frame; nothing is written when the processes cannot be read |
| `Listing.MessageFitsExactly` | ward-agent/src/lib.rs:433-447 | An error message is accepted by the frame writer exactly up to eight bytes below the frame cap |
| `LimitWrites.Cgroup.WriteAllOrNone` | ward-agent/src/limits.rs:81-109 | All new texts are in place, or the files not put back are exactly the named ones and all others hold their old text, trimmed where rewritten; which of these happens follows from which write calls the kernel refuses |
| `LimitWrites.Cgroup.PutBackWritten` | ward-agent/src/limits.rs:93-99 | The files left with new text are exactly those whose put-back call was refused |
| `LimitWrites.Apply` | ward-agent/src/limits.rs:39-76 | It refuses exactly when a controller is missing and then changes nothing; no limit file changes before the limit writes; the rest is all or put back; files and result are the function the failure lemmas are about |
| `LimitWrites.CpuMaxTextMeans` | ward-agent/src/limits.rs:123-130 | The CPU text is a quota and a period of 100000, the quota being the asked share of the period rounded down and at least 1000, or `max 100000` for zero |
| `LimitWrites.LimitTextMeans` | ward-agent/src/limits.rs:115-121 | The other texts are `max` for zero and otherwise the number in decimal |
| `LimitWrites.WritesAreTheRequest` | ward-agent/src/limits.rs:65-74 | Exactly the limits asked for are written, each with its own text to its own file |
| `LimitWrites.EnablingTouchesNoLimit` | ward-agent/src/limits.rs:133-139 | Enabling controllers changes no limit file |
| `LimitWrites.FailureLeavesSwitchesExactly` | ward-agent/src/limits.rs:39-76 | With a kernel that enables what it is asked to, a failing `apply` can leave a controller switched on if and only if the request is not refused outright and asks for a controller that is not on yet |
| `LimitWrites.FailureChangesExactly` | ward-agent/src/limits.rs:39-109 | With such a kernel a failing `apply` can leave some file changed, up to surrounding whitespace, if and only if the request is not refused outright and there is a controller to switch on, or a limit before the last one whose text is new up to surrounding whitespace |
| `LimitWrites.RefusedLimitLeavesSwitchesOn` | ward-agent/src/limits.rs:58-75 | For every such request, a kernel that refuses the first limit write leaves the controllers switched on |
| `LimitWrites.RefusedLastChanges` | ward-agent/src/limits.rs:89-107 | A kernel that refuses the last write, and none before it, and then the put-back of an earlier one leaves the new text in that file and the call fails |
| `LimitWrites.TrimKeepsWords` | ward-agent/src/limits.rs:133-139 | Surrounding whitespace does not change which controllers a list names |
| `LimitWrites.WritesLeave` | ward-agent/src/limits.rs:81-109 | Which outcome `write_all_or_none` has, and what every file then holds, follow from the calls the kernel refuses |
| `LimitWrites.RefusedPidsLeavesCpuOn` | ward-agent/src/limits.rs:58-63 | For every request not refused outright that asks for both controllers when neither is on, a kernel that grants the first write call and refuses the second leaves the cpu controller on |
| `LimitWrites.TrimIsStable` | ward-agent/src/limits.rs:93-99 | Text put back trimmed is the same as the old text up to surrounding whitespace |
| `Escape.DecodesExactly` | ward-cli/src/diff.rs:51-86 | A decoder gives back the exact bytes of a path if and only if it holds no byte C2 followed by a byte from 80 to 9F |
| `Escape.EscapedIsInjective` | ward-cli/src/diff.rs:51-86 | Two such paths that print alike are the same path |
| `Escape.C1Collides` | ward-cli/src/diff.rs:51-86 | C2 85 and a lone 85 print the same, so no decoder recovers every path |
| `Escape.EscapedHasNoControls` | ward-cli/src/diff.rs:51-86 | No code point from 0 to 31 or from 127 to 159 is ever printed |
| `Escape.ValidTextPrints` | ward-cli/src/diff.rs:51-86 | Any valid text prints character by character: a backslash doubled, a control character as a two-digit escape, everything else as itself |
| `Escape.BadBytePrints` | ward-cli/src/diff.rs:79-83 | A byte that belongs to no character prints as a backslash, an x and two lower-case hexadecimal digits |
| `Escape.FirstIsExact` | ward-cli/src/diff.rs:58-68 | A byte string is found to start with a character if and only if it starts with that character's UTF-8 encoding |
| `Escape.FirstIsScalar` | ward-cli/src/diff.rs:58-68 | No surrogate and nothing above U+10FFFF is ever decoded |
| `Escape.DecodingShrinks` | ward-cli/src/diff.rs:69-82 | Decoding gives the path with each encoded C1 control shrunk to its last byte |
| `Escape.ShrinksExactly` | ward-cli/src/diff.rs:69-82 | Shrinking changes a path if and only if such a byte pair occurs anywhere in it |
| `Escape.C1StartsAUnit` | ward-cli/src/diff.rs:58-68 | Such a byte pair never straddles two units of the validator |
| `Escape.CharEncodesBack` | ward-cli/src/diff.rs:58-68 | A character the validator finds encodes to the bytes it was found in |
| `Escape.EscapedByRuns` | ward-cli/src/diff.rs:57-84 | One turn of the loop, a valid run and its error, prints the same as going unit by unit |
| `Escape.EscapePath` | ward-cli/src/diff.rs:54-86 | The loop ends for every path and prints what the unit-by-unit form prints |
| `Escape.PushChars` | ward-cli/src/diff.rs:69-78 | The loop over a valid run prints each of its characters |
| `Escape.PushBytes` | ward-cli/src/diff.rs:79-82 | The loop over bad bytes prints each as a hex escape |

## Left out

- GuardStaysInStep: assumes an empty PAX body parses to no records, which is a fact about the tar crate; streams are at most 2^64 - 1 bytes long, the most a 64-bit offset can name.
- EveryHeaderIsJudged: makes the same two assumptions as `GuardStaysInStep`.
- GuardRefusesExactly: makes the same two assumptions as `GuardStaysInStep`; so do `RefusalIsDeserved` and `AcceptedHasNoFault`.
- OffsetCoversEntry: makes the same two assumptions as `GuardStaysInStep`.
- NoHeaderBetween: makes the same two assumptions as `GuardStaysInStep`, of the accepted prefix only.
- HeadersAreAccounted: makes the same two assumptions as `GuardStaysInStep`.
- BytesBelowOffsetsPassed: makes the same two assumptions as `GuardStaysInStep`, of the accepted prefix only.
- CopyHasNoSparse: makes the same two assumptions as `GuardStaysInStep`.
- OffsetsIncrease: leaves out streams with GNU sparse files, whose reported size is the expanded one and may reach past the entry; only the copy policy reports offsets, and its guard refuses them.
- StampsComeOff: needs stamps without a space, which the fixed RFC 3339 style stamp is, and a time on every byte, since bytes without one are printed without a stamp.
- StampedRun: does not say where on standard error the warning stands; `RunPrintsShown` does.
- PackedDirReplays: needs names a directory listing can hold, and siblings that the target filesystem tells apart; on a case-folding host `a` and `A` collide.
- PackedDirPassesTrail: needs siblings that differ beyond ASCII case, since the check folds case on every host; `PackedDirTrailExactly` says for which trees that can be dropped.
- RenamedDirPassesTrail: needs the same siblings; `RenamedDirTrailExactly` is the exact condition.
- WriteAllOrNone: needs distinct files, as every caller gives it.
- LaterCallSucceedsExactly: is about a call none of whose own steps fails.
- FailureFreeCallAnswers: counts neither writes nor removals among the steps; a payload is written in any number of them.
- CleanRunDeliversAll: is about raw output without a terminal; the grace period of a terminal and line mode are not modelled, since their outcome is up to the runtime's clock.
- The tar crate: header fields, entry sizes, entry types and PAX records are uninterpreted functions of the bytes, so the theorems hold for any parser. Parsing names out of headers is a parameter of the scan.
- The unpacking branch of `scan`, `DirMode` and `check_hardlink_inside`: they rest on inode identity and on the tar crate's own unpacking. `Replay` models unpacking as replacing the last path component without following it.
- File owners and planted symlinks in `verify_private`, and builds that embed no libraries: all processes of `Extraction` are one user's, and the payloads exist.
- Modes, owners and times of unpacked files: the replayed tree holds names, bodies and link targets.
- Source trees that change while they are packed: the tree is static.
- Non-ASCII case folding of host filesystems: the source folds ASCII only, and the case-folding filesystem modelled here does too.
- Queues between threads in the chunk pipes: a receiver is the sequence of chunks it will get, and a receiver that goes away is a count of the chunks it still takes.
- Standard input, signals and out-of-memory detection of an exec: they do not reach the event queue before the exit event.
- Reading and sorting `/proc`, user names and percentages of the process listing: a process is its already formatted row. Percentages are floating point.
- Files the kernel adds when a controller is switched on: the limit files are there beforehand or the request fails as unreadable.
- The wording of errors, warnings and tables, JSON output, flag parsing and durations: they would only add easy members.
- gRPC calls, command dispatch, the daemon's clients, mounts, networking and terminals: plumbing around code that is not in the repository or around system calls.
