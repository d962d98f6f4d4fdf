# Provisioning agent: planner, upload, boot order and event protocols in Dafny

The repository is a remote machine-provisioning agent. This project models the parts of it that hold algorithms or
protocols, and proves what they do for every input, every schedule or every run.

- **Disk layout planner** (`Machine`, `GcdLcm`, `Parted`, `Reconcile`, `Idempotence`, `Layout`, `Repair`,
  `FormatDisks`, `Repetition`). The partition table is a map from partition number to start, inclusive end and file
  system type, held by the class `PedDisk` that `MkPart` and `RmPart` update. About libparted the model assumes that
  numbers are stable under deletion, that deleting an existing partition never fails, that all partitions are primary
  and so counted, that a new partition takes the smallest free number, that a geometry off the device cannot be built,
  that an overlapping addition is refused, and that a committed table reads back with the file system types that were
  asked for: libparted probes them, only ntfs and fat32 are formatted, and reading an unrecognized type would
  dereference nil (tools/parted/parted_linux.go:307-308). The alignment constraint is an arbitrary function `snap`
  that may move or refuse a geometry; each result says what it needs of it (nothing, the identity, a bound of two
  million bytes, unchanged sizes, or ends at 2047 modulo 2048). Conversions to and from 64-bit integers wrap as in Go
  and C, and division truncates. `FormatDisks` and the loops inside it are methods, each proved equal to a function of
  the old table; the theorems are about those functions.
- **Chunked uploads** (`Files`, `Upload`, `UploadIntegrity`, `UploadProgress`, `UploadFairness`, `UpdateLoader`). `Upload`
  is a step system: receive loop, progress goroutine, mutex, unbuffered stop channel, wrapping 32-bit counter, and a file
  opened without truncation that may hold older, longer content. Integrity is proved for every schedule with any
  failures. For one Info, any chunks and one Hash it is decided, by how often the counter meets the announced size,
  whether a verdict can be returned; when it can, no thread is left blocked and no fair execution goes on forever.
  `UpdateLoader` is a method proved against a description of what a session may install.
- **Boot entries** (`LittleEndian`, `BootOrder`, `DevicePath`, `LoadOption`). The move-to-front of the last match, its
  k-fold iteration, little-endian serialization, the description decoder and the recursive device path walk. Formats:
  EFI_LOAD_OPTION (section 3.1.3 of the UEFI Specification 2.10) and device path nodes (section 10.3 of the same).
- **Event machines** (`Notifier`, `ServiceBinding`, `Recording`, `WimApply`). The network-change notifier and the
  service that relies on it, the recording session with its reader goroutine, and the rendezvous of a WIM extraction.
- **Content-addressed archive** (`Archive`). The recursive walk, the blobs, the extraction.
- **Concrete inputs** (`Counterexamples`) for most of the list that follows.

## What does not hold as promised

Where the code does less than its purpose suggests, the model follows the code; the exact condition is a theorem.

- The deletion loop advances its counter while it deletes the same number. It removes the intended suffix exactly when
  the mismatch is the last partition (`DeletionMeetsIntentIff`, `RepairedIffLast`, `PassSucceedsIff`).
- A new start can equal the previous inclusive end, exactly when that end is a positive multiple of the grain
  (`StartClearsPrevious`, `FreshOverlap`, `FreshLayoutIff`).
- The start is planned behind the partition whose number is the count, so on a table with gaps a later partition is not
  looked at and its sectors are planned again (`PlannedStart`, `GapHidesTheLast`).
- A second pass is quiet exactly when every size is representable: two million bytes beyond 2^63 bytes are the
  most that any partition can be taken for (`SecondPassIsQuietIff`). When a disk is named several times, then
  wherever it failed a request for some partition to begin with, all requests for that partition must also stay
  within 2 MB of the first one it failed (`RepeatedIdempotentIff`, `FormatDisksIdempotentIff`).
- An upload returns a verdict only if exactly one chunk boundary meets the announced size modulo 2^32: an empty chunk
  behind the last byte, or too few bytes, make it hang (`ReturnsIff`). It is accepted exactly when also the bytes are
  as announced, the file did not hold more before, and the digest agrees (`AcceptedIff`): the missing truncation turns
  longer old content into a failure.
- The description decoder needs a byte after the terminator (`DescriptionRoundTripIff`); the vendor printer needs 16 bytes
  that the format does not demand (`ShortVendorNodePanics`); the text printer never reads the last unit
  (`TextRoundTripIff`); boot variables are looked up with decimal digits, which is the right name exactly for numbers
  below ten (`NameReadIff`).
- The archive reproduces a tree exactly when the hash is injective on its contents (`RoundTripIff`); over
  existing files the end of a longer one stays (`OverDestination`).
- A recording session whose process or connection fails blocks every later start forever, and nothing else does
  (`NeverBeginsIff`, `BlockedIff`).
- A WIM extraction unmounts exactly when the end messages and a failing result make at most one blocking send
  (`RestsUnmountedIff`, `LeftMountedIff`); a failed preparation blocks its caller forever (`FailedPreparationHangs`); a
  handler can forward an empty text although none was emitted (`EmptyTextPossibleIff`).
- A change of the address binds a new listener over the old one, which the service never closes (`ForgottenIff`).

## Model

| member | source | states |
|---|---|---|
| GcdLcm.GCD | tools/parted/parted_linux.go:621-628 | the truncating Euclidean recursion on any arguments; on positive ones the result divides both, and every common divisor divides it |
| GcdLcm.GcdIsGreatest | tools/parted/parted_linux.go:620-628 | the common divisors are exactly the divisors of the Euclidean result, which is the largest |
| GcdLcm.LCM | tools/parted/parted_linux.go:630-639 | on all arguments the wrapped left fold, failing exactly on a zero divisor; whenever all products fit 64 bits the common multiples of all arguments are exactly the multiples of the result; for two positive arguments it is the least common multiple if and only if the product fits |
| GcdLcm.LcmAllIsLeast | tools/parted/parted_linux.go:630-639 | the left fold over any number of arguments divides every common multiple of all of them and is one |
| GcdLcm.PairExactIff | tools/parted/parted_linux.go:631-632 | two positive 64-bit arguments get their true least common multiple exactly when their product does not wrap |
| Counterexamples.WrappedProductHeals | tools/parted/parted_linux.go:630-639 | with three arguments a wrapped product does not exclude the right result: 2^32 + 1 three times |
| Machine.QuotientRemainder | tools/parted/parted_linux.go:622-632 | the truncating quotient and remainder of any two numbers recombine to the dividend, and the remainder has its sign and is smaller than the divisor |
| Parted.PedDisk.RmPart | tools/parted/parted_linux.go:162-173 | removes that number and no other, and fails exactly when it is absent |
| Parted.PedDisk.MkPart | tools/parted/parted_linux.go:174-231 | the new table, or refusal or panic with the table kept, as the planned geometry, the constraint and the overlap rule decide |
| Parted.MakeOutcome | tools/parted/parted_linux.go:174-231 | a creation panics exactly on an unknown type or a geometry that leaves the device; it is added, under the least free number, exactly when the constraint accepts it on the device and no partition overlaps it; else the table is unchanged |
| Parted.PlannedStart | tools/parted/parted_linux.go:180-195 | the start is the least positive multiple of 34816 sectors from the end of the partition whose number is the count on, and the first multiple if that number is missing, whatever stands under higher numbers |
| Parted.AlignedStartIsLeast | tools/parted/parted_linux.go:180-193 | the start is the least positive multiple of the grain that is not below the previous inclusive end |
| Parted.AlignedStartValue | tools/parted/parted_linux.go:180-193 | the same for every 63-bit end, including the wrap of the start |
| Parted.StartClearsPrevious | tools/parted/parted_linux.go:180-195 | the start is strictly behind the previous end exactly when that end is not a positive multiple of the grain; less than a grain is skipped; ends at 2047 modulo 2048 are always cleared |
| Reconcile.DeletePartitions | service/maintenance_linux.go:184-190 | the written loop, with its termination measure, leaves the table and issues the calls of the specification function, and fails when it does |
| Reconcile.ReconcilePartition | service/maintenance_linux.go:163-198 | one round: keep, create, or delete and create, with the whole new table and the calls issued |
| Reconcile.ReconcileDisk | service/maintenance_linux.go:162-199 | the pass over the requests, stopping at the first failure |
| Idempotence.DeleteLoopClosedForm | service/maintenance_linux.go:184-190 | the loop deletes once, and tries a second, failing deletion exactly when at least three partitions from the mismatch on exist |
| Idempotence.DeleteLoopMeasure | service/maintenance_linux.go:184-190 | count minus counter drops by two in each successful iteration |
| Idempotence.DeletionMeetsIntentIff | service/maintenance_linux.go:179-190 | the loop removes exactly the intended suffix if and only if the mismatched partition is the last of a gapless table |
| Idempotence.DeletionOnContiguous | service/maintenance_linux.go:184-190 | one partition behind the mismatch survives, two or more make the loop fail |
| Idempotence.MatchesIff | service/maintenance_linux.go:176-179 | the test that keeps a partition, in bytes: same file system, and from two million below the requested ones to just under three million above |
| Idempotence.RoundOutcomeIff | service/maintenance_linux.go:179-198 | a round that does not keep its partition ends with a failed deletion exactly when that partition exists among at least index + 3, else as the creation ends on the table without it |
| Idempotence.PassKeepsPrefix | service/maintenance_linux.go:162-199 | however the pass ends, partitions already dealt with are unchanged, and success means that all requested numbers exist |
| Idempotence.PassAt | service/maintenance_linux.go:162-199 | a successful pass treats each number by its own request alone: kept if it passes the test, else newly built; numbers not requested stay |
| Idempotence.PassReplays | service/maintenance_linux.go:162-199 | however the pass ends, the deletions and creations it issued, replayed in order, make the table it leaves |
| Idempotence.SizeRoundTrip | tools/parted/parted_linux.go:195-299 | a created partition reads back exactly the requested MB for sector sizes below a million and sizes below 2^63 bytes |
| Idempotence.PlannedBytes | tools/parted/parted_linux.go:195-299 | the planned length exceeds the requested bytes by at least one byte and at most one sector |
| Idempotence.WrappedIsNotPlanned | tools/parted/parted_linux.go:195-204 | a representable size whose bytes wrap never yields a geometry on the device |
| Idempotence.CreatedMatchesIff | service/maintenance_linux.go:176-179 | a partition just created and snapped by up to two million bytes passes its own test exactly when its size is representable |
| Idempotence.QuietIffSettled | service/maintenance_linux.go:162-199 | the pass issues no delete and no create exactly on tables that already satisfy the request |
| Idempotence.PassSettlesIff | service/maintenance_linux.go:162-199 | after success each requested partition passes its test exactly when its size is representable |
| Idempotence.SecondPassIsQuietIff | service/maintenance_linux.go:162-199 | idempotence: a second pass changes nothing if and only if every size is representable |
| Layout.FreshPlan | tools/parted/parted_linux.go:180-203 | after k placed partitions the planner's geometry is the closed form, and is on the device exactly when that is |
| Layout.FreshOverlap | tools/parted/parted_linux.go:191-212 | the new geometry overlaps an earlier one exactly when the last partition fills whole grains |
| Layout.QuotaValue | tools/parted/parted_linux.go:195 | the quota of a request is its whole sectors below 2^63 bytes, and always fits 64 bits |
| Layout.FreshPassFrom | service/maintenance_linux.go:162-199 | a fresh pass ends in closed form or stops, with the closed form so far, at the first request that cannot be placed |
| Layout.FreshLayoutIff | service/maintenance_linux.go:162-199 | from an empty table the pass succeeds if and only if every request fits and none before the last fills whole grains, and then the table is the closed form with numbers 1 to n; for every request, wrapped byte counts included |
| Repair.MakeAppends | tools/parted/parted_linux.go:180-212 | on an ordered table with clear ends a fitting creation is never refused, appends the next number, strictly behind the last, less than a grain away |
| Repair.PassNeverRefused | service/maintenance_linux.go:162-199 | over the whole pass, with at most the last partition differing, nothing is refused for overlap and order and clear ends are kept |
| Repair.StrandedPartitionBlocks | service/maintenance_linux.go:184-195 | the partition that survives the deletion makes the rebuild fall into partition 1 and be refused |
| Repair.RepairedIffLast | service/maintenance_linux.go:179-196 | a mismatch behind partition 1 is repaired exactly when it is the last partition |
| Repair.FirstRepairedIff | service/maintenance_linux.go:179-196 | a mismatched partition 1 is rebuilt exactly when it is alone, or has one successor that begins behind the replacement and stays |
| Repair.PassSucceedsIff | service/maintenance_linux.go:162-199 | a whole pass over a table the planner built succeeds exactly when what must be created fits and at most the last partition mismatches, or a first partition of two is rebuilt in front of the second |
| FormatDisks.Host.FormatDisks | service/maintenance_linux.go:133-203 | the partitioning phase over all disks: result, committed tables and calls as specified |
| FormatDisks.DoneMeans | service/maintenance_linux.go:135-203 | success means that every disk asked for exists and that none of them refused its commit |
| FormatDisks.RefusingKeeps | service/maintenance_linux.go:200-202 | a disk whose commit is refused keeps what it held, however the run ends |
| FormatDisks.EndsAtIff | service/maintenance_linux.go:135-203 | the run ends with NotFound, Failed or CommitFailed if and only if for some request all before it succeed, and on the disks they leave it names a missing disk, its pass fails, or its commit is refused |
| FormatDisks.AllReplays | service/maintenance_linux.go:135-203 | after success every disk holds what the calls issued for it, in order, make of what it held |
| FormatDisks.FailureCommitsPrefix | service/maintenance_linux.go:135-203 | a failing request leaves the disks of a successful run of a proper prefix of it, and has issued the calls of that run followed by those of the failing request |
| FormatDisks.UntouchedDisks | service/maintenance_linux.go:135-203 | a disk that is not named is not changed |
| FormatDisks.StaysSettled | service/maintenance_linux.go:135-203 | what is settled stays settled under later requests that agree with it |
| FormatDisks.FormatDisksIdempotentIff | service/maintenance_linux.go:135-203 | when requests for the same disk agree wherever they overlap, repeating a successful request changes nothing exactly when all sizes are representable |
| Repetition.ReplacedIff | service/maintenance_linux.go:176-195 | the partition that replaces a missing or failing one passes its own and all later requests in the end exactly when its request is representable and the later ones are close to it; then it has the exact size of its request |
| Repetition.RepeatedIdempotentIff | service/maintenance_linux.go:135-203 | on any disks, under a constraint that keeps sizes, repeating a successful request changes nothing exactly when all sizes are representable and, wherever the disks failed a request for some partition, all requests for it have the type and, within 2 MB, the size of the first one they failed |
| UploadIntegrity.WrittenInv | service/deployment.go:133-146 | a chunk extends the data laid over the prior content and the counter modulo 2^32, on any stream with one Info |
| UploadProgress.ChunkStored | service/deployment.go:133-141 | after a chunk the file is the prior content under all data so far, and the counter its length modulo 2^32 |
| UploadIntegrity.GateAndLengthSuffice | service/deployment.go:140-163 | the gate opened at the announced size modulo 2^32 together with equal file length excludes a wrapped counter and an older tail |
| UploadIntegrity.StepInv | service/deployment.go:78-171 | every step of every schedule, failures included, keeps the relation between file, counter and gate |
| UploadIntegrity.AcceptedUploadIsExact | service/deployment.go:69-172 | with one Info of nonzero size, success means that the file is exactly the chunks, of the announced length and digest, other files are untouched, and the counter never wrapped |
| Upload.EmptyUploadIff | service/deployment.go:87-112 | every schedule of a stream that begins with an Info of size zero has at most one step; it accepts unless the file cannot be opened, keeps an existing file, creates a missing one empty, and starts no goroutine |
| Upload.VerdictIff | service/deployment.go:78-171 | which step of which state returns a receive, open, lock or write error or crashes: an Info met with the mutex held is a lock error |
| Upload.AcceptedWithoutCheckIff | service/deployment.go:106-112 | without hashing only an Info of size zero met with a free mutex is accepted |
| Upload.CheckIff | service/deployment.go:147-169 | the check fails on a missing file, then exactly on a wrong length, then exactly on a wrong digest, and unlocks in any case |
| UploadProgress.StepInv | service/deployment.go:106-150 | every step of an upload of one Info, any chunks and one Hash keeps the stages of mutex, handshake and goroutine, told from how often the counter met the size |
| UploadProgress.WellFormedHitsOnce | service/deployment.go:140-146 | nonempty chunks that sum up to the size meet it exactly once |
| UploadFairness.GateDiscipline | service/deployment.go:106-150 | the mutex is held exactly from Info to completion and while hashing; at most one handshake and one unlock, where the counter met the size; hashing and returning only after completion; the verdict is determined |
| UploadFairness.ReportsNeverGoBack | service/deployment.go:113-132 | when the chunks are as announced, progress messages are nondecreasing percentages and the last one is 100 |
| UploadProgress.ReportIsShare | service/deployment.go:113-132 | when the chunks are as announced, each progress message is the share written so far, in percent rounded down |
| UploadFairness.NeverStuck | service/deployment.go:78-171 | with one hit in all, unless all is done the receive loop can step, or it waits and the goroutine can step |
| UploadFairness.MaximalScheduleFinishes | service/deployment.go:78-171 | with one hit in all, a schedule that cannot be continued has returned the verdict and ended the goroutine |
| UploadFairness.ReturnsIff | service/deployment.go:140-150 | one Info, any chunks, one Hash: a verdict can be returned if and only if exactly one chunk boundary meets the size modulo 2^32 |
| UploadFairness.NoHitSpins | service/deployment.go:147-150 | without one the goroutine can always step once the Info is taken |
| UploadFairness.NoHitWaits | service/deployment.go:147-150 | and every fair infinite execution comes to wait for the mutex, and waits from then on |
| UploadFairness.SecondStopBlocks | service/deployment.go:142-145 | with several, every schedule that comes to rest waits at the second stop for a goroutine that is gone |
| UploadFairness.FairRunsEnd | service/deployment.go:78-171 | with a hit, no infinite execution is weakly fair to the receive loop |
| UploadFairness.FairSchedulesEnd | service/deployment.go:78-171 | with a hit, a schedule that passes over a ready receive loop at most b times in a row has at most the given number of steps, linear in the chunks |
| UploadFairness.AcceptedIff | service/deployment.go:147-169 | a verdict is acceptance exactly when the chunks are as many bytes as announced, the older content was not longer and the digest agrees; then the file is exactly the chunks |
| UploadFairness.ResultIff | service/deployment.go:151-169 | a verdict told from the file that is left: a size error exactly for a wrong length, a digest error exactly for the right length and a wrong digest, else acceptance |
| UpdateLoader.Serve | service/maintenance.go:34-112 | installs exactly the file that passes both checks at the first Hash, else ends with the error of the message that stops it; crashes only on a chunk while the announced size is zero; reports are those of the messages served |
| UpdateLoader.EndingIff | service/maintenance.go:49-109 | how a session ends at a message, told from its last Info and the chunks behind it: size error, digest error or installation at a Hash, receive error at the end |
| UpdateLoader.EndingWithoutInfo | service/maintenance.go:49-109 | without an Info a chunk is a write error and a Hash a seek error |
| UpdateLoader.InstalledIsSinceLastInfo | service/maintenance.go:49-69 | the file is the chunks since the last Info and the size that of the last Info |
| UpdateLoader.ReportsArePercentages | service/maintenance.go:69-75 | after one Info the reports never go back, one per chunk, and the last is the share received, 100 at the end |
| UpdateLoader.WellFormedInstallsIff | service/maintenance.go:49-109 | one Info, chunks, one Hash: installed exactly when length and digest agree |
| LittleEndian.GetAllPutAll | service/power_ctl.go:109-112 | reading back serialized boot numbers gives the list |
| LittleEndian.GetAllAt | service/power_ctl.go:82 | each boot number is a low byte and 256 times the byte behind it |
| LittleEndian.PutAllAt | service/power_ctl.go:109-112 | each boot number is written as its remainder modulo 256, then its quotient |
| BootOrder.PowerCtl.FindTarget | service/power_ctl.go:88-98 | the index of the last entry whose description is some text, the search text, and some text; -1 when no description is |
| BootOrder.ContainsIff | service/power_ctl.go:93 | the search by position finds a text exactly in those of the form prefix, text, suffix |
| BootOrder.PromotesLast | service/power_ctl.go:99-108 | the new order is the match with none behind it, what stood in front of it, and what stood behind it |
| BootOrder.PowerCtl.RestartTo | service/power_ctl.go:79-124 | the stored boot order becomes the old one with its last entry whose description includes the search text moved to the front, and stays so when the restart behind it fails; the other failures leave it alone, and not found means that no description includes the text |
| BootOrder.Serialize | service/power_ctl.go:109-112 | the output buffer is the serialization of the order: byte 2i is entry i modulo 256, byte 2i + 1 its quotient |
| BootOrder.StablePartition | service/power_ctl.go:88-108 | as many promotions as matches give the stable partition, matches first |
| BootOrder.PartitionRepeats | service/power_ctl.go:88-108 | from there the order comes back after every k promotions |
| BootOrder.PeriodIsLeast | service/power_ctl.go:88-108 | and after no fewer, if the matching entries are distinct |
| BootOrder.Rotation | service/power_ctl.go:99-108 | j promotions of a partitioned order rotate the matches by j |
| BootOrder.NameReadIff | service/power_ctl.go:91 | the decimal name that is read is the specified hexadecimal one exactly for boot numbers below ten |
| BootOrder.NamesOfTen | service/power_ctl.go:91 | for number ten the name read is Boot0010 and the one specified Boot000A |
| LoadOption.ReadUnits | service/power_ctl.go:207-215 | the decoding loop stays in bounds and leaves with exactly the units up to the terminator |
| LoadOption.GetBootDesc | service/power_ctl.go:198-219 | hands on the specified units, or panics on a short header |
| LoadOption.ShortHeaderPanics | service/power_ctl.go:200-206 | the decoders panic on one to five bytes; on an empty variable neither does |
| LoadOption.DescriptionRoundTripIff | service/power_ctl.go:207-217 | a zero-free description is recovered exactly if and only if a byte follows its terminator |
| LoadOption.Inspect | prog_wim/main.go:112-151 | the inspection tool's decoder computes the specified parts, nothing for an empty variable, or panics |
| LoadOption.UnterminatedEntry | prog_wim/main.go:124-151 | without a terminator the path list is looked for at offset zero, with the length in bytes 4 and 5 |
| LoadOption.BuildAt | prog_wim/main.go:119-145 | where the parts of a load option stand: attributes in bytes 0 to 3, path list length at 4, units from 6 on, terminator, path list |
| LoadOption.EntryRoundTrip | prog_wim/main.go:112-151 | a load option is taken apart into exactly the description, nodes and optional data it was built from |
| LoadOption.ParsedEntryRebuilds | prog_wim/main.go:112-151 | an entry decoded with its terminator is the load option built from the decoded parts |
| LoadOption.Utf16 | prog_wim/main.go:324-331 | the units of the bytes, low byte first, with zero for the last unit of an even number of bytes; always in bounds |
| LoadOption.TextRoundTripIff | prog_wim/main.go:324-331 | a serialized text comes back exactly when its last unit is zero |
| LoadOption.OddText | prog_wim/main.go:324-331 | of an odd number of bytes every unit is read |
| DevicePath.ParseSerialized | prog_wim/main.go:153-185 | the walk over serialized well-formed nodes visits exactly those, in order |
| DevicePath.SerializeParsed | prog_wim/main.go:153-185 | the nodes visited by any walk that does not panic are well-formed and concatenate back to the input |
| DevicePath.ParsePathIff | prog_wim/main.go:153-185 | the walk succeeds with a list exactly on its serialization |
| DevicePath.LeastDataIff | prog_wim/main.go:153-311 | the walk over one node succeeds with it exactly with at least 2 data bytes for a PCI, 8 for an ACPI, 32 for a vendor messaging, 38 for a hard drive, 4 for a BIOS boot node, and always for any other |
| DevicePath.ShortVendorNodePanics | prog_wim/main.go:251-256 | a vendor messaging node is printed exactly when 16 bytes follow its identifier |
| DevicePath.HardDriveRoundTrip | efiv/efiv.go:13-60 | a hard drive node decodes to the record it was made from, whatever follows it in the slice or behind it |
| DevicePath.FieldsAt | efiv/efiv.go:50-60 | the fields of a hard drive node byte by byte, low bytes first |
| DevicePath.HeadersAgree | efiv/efiv.go:13-26 | NewFilePath and the walk read the same first node; a node that reaches beyond the slice into its backing array fails the walk and not NewFilePath |
| DevicePath.EncodeUUID | tools/parted/parted_linux.go:640-647 | bytes 0 to 3, 4 to 5 and 6 to 7 reversed, the others as they are, zero-padded from at least eight bytes, panic below |
| DevicePath.SwappedTwice | prog_wim/main.go:332-339 | encoding an identifier twice gives it back |
| Notifier.InterfaceByAddress | util/util.go:8-26 | the first interface and its first address with the prefix; nothing exactly when there is none |
| Notifier.FindIsFirst | util/util.go:13-25 | the search order: no hit lies before the one found |
| Notifier.PolledIff | util/network_change.go:29-30 | a poll yields an address exactly when the interfaces can be listed and the first address with the prefix is on an interface that is both up and running |
| Notifier.NetworkChangeNotifier.Subscribe | util/network_change.go:45-49 | registers the observer with its address and no status, leaving the others |
| Notifier.NetworkChangeNotifier.NetworkChanged | util/network_change.go:26-44 | one poll in any iteration order: each status is an address exactly when the first address with the prefix is that one on an interface up and running, and each observer got one call, Up with the address or Down, exactly if its status changed |
| Notifier.NetworkChangeNotifier.Serve | util/network_change.go:50-64 | over any events the calls to each observer are exactly the changes of its polled address |
| Notifier.OneChange | util/network_change.go:31-40 | a single poll makes no call without a change, Up with the new address, or Down |
| Notifier.ChangesSplit | util/network_change.go:31-40 | over consecutive polls the calls add up |
| Notifier.ChangesInform | util/network_change.go:31-40 | each call differs from what the observer knew, and the calls add up to the last poll |
| Notifier.DownIsNeverRepeated | util/network_change.go:36-40 | down is never the first call and never comes twice in a row |
| ServiceBinding.ServiceCtxt.BindInterface | service/service.go:95-111 | binds the first successful listen attempt, and has not returned while there is none |
| ServiceBinding.ServiceCtxt.UnbindInterface | service/service.go:112-117 | clears the listener, and dereferences nil exactly without one |
| ServiceBinding.ServiceCtxt.NetworkChanged | service/service.go:118-125 | up is handled exactly when an attempt succeeds, binding the first that does; down unbinds, and dereferences nil exactly without a listener |
| ServiceBinding.BindDiscipline | service/service.go:95-125 | composed with the notifier unbinding always finds a listener; status and listener agree except while the first listen is awaited |
| ServiceBinding.StatusIsLastPoll | util/network_change.go:26-44 | in the composition the status is the last poll |
| ServiceBinding.ForgottenIff | service/service.go:95-125 | one listener is overwritten unclosed for each change of the address, so none exactly when it never changed in one go |
| Recording.RunInv | service/recording_windows.go:278-370 | mutual exclusion, the session of the reader, and the meaning of finish hold on every interleaving |
| Recording.AtMostOneReader | service/recording_windows.go:317-351 | at most one progress reader exists |
| Recording.NilReaderMeansNoneLive | service/recording_windows.go:341-347 | with a nil reader only one that has finished and still holds the mutex may exist |
| Recording.FinishStands | service/recording_windows.go:278-370 | after finish the status changes only through a stop request or a session begun later |
| Recording.FinishIsLastWrite | service/recording_windows.go:326-352 | a session never writes the status after its own finish |
| Recording.StatusAfter | service/recording_windows.go:326-370 | which steps write the status and what: a start its starting, the reader its recording and its finish, a stop stopping |
| Recording.ReaderEnds | service/recording_windows.go:315-350 | a reader that ends has written its finish and cleared the global, unless its connection was never accepted |
| Recording.FinishShows | service/recording_windows.go:278-354 | on every run without stop requests, whenever no session is current the status is the finish of the last one begun |
| Recording.AbandonedIff | service/recording_windows.go:292-321 | a session is left without a reader exactly when launching or accepting fails |
| Recording.RunAbandonsIff | service/recording_windows.go:292-321 | a whole run leaves an abandoned session exactly when some launch or accept in it failed |
| Recording.CanBegin | service/recording_windows.go:278-354 | from every state that is not abandoned a further session can begin |
| Recording.NeverBeginsIff | service/recording_windows.go:281-283 | no continuation begins a session if and only if the current one is abandoned |
| Recording.BlockedIff | service/recording_windows.go:278-354 | after a run no session can begin if and only if some launch or accept in it failed |
| Recording.CurrentIff | service/recording_windows.go:281-346 | outside a start the global is set exactly when a reader is at work or the session was abandoned |
| WimApply.RestsUnmountedIff | tools/wim/wim.go:110-121 | wherever it comes to rest the handler has returned, and the mount is undone exactly once if and only if there is at most one blocking send |
| WimApply.ReturnedVerdict | service/maintenance_linux.go:115-129 | the handler returns the error of a failure without an end message before it, else nil |
| WimApply.LeftMountedIff | tools/wim/wim.go:110-121 | some run comes to rest with the image mounted if and only if there are two blocking sends or more |
| WimApply.FailedPreparationHangs | tools/wim/wim.go:78-105 | the error of a failed preparation is sent before the call has returned to its receiver, so nothing moves again |
| WimApply.RunsAreBounded | service/maintenance_linux.go:115-129 | every run is finite up to the empty texts read from the closed channel |
| WimApply.FairRunsEnd | service/maintenance_linux.go:115-129 | no execution goes on forever unless the select passes over the closed finish channel forever |
| WimApply.DeliveredIsSubsequence | tools/wim/wim.go:129-160 | what is forwarded, empty texts aside, is a subsequence of what was emitted |
| WimApply.EmittedIsSpoken | tools/wim/wim.go:129-160 | what is emitted is what the library says, in order, all of it once its callbacks are through |
| WimApply.AllCanBeDelivered | service/maintenance_linux.go:115-121 | some interleaving forwards everything said up to the first end message, that one included |
| WimApply.EmptyTextPossibleIff | service/maintenance_linux.go:115-121 | an empty text can be forwarded exactly when the library neither sends an end message nor fails |
| Archive.Archiver.ListFiles | test.go:20-84 | the recursive walk leaves the specified index, blobs and count |
| Archive.Archiver.Extract | test.go:85-113 | extraction in any order of the index writes the specified files, and fails exactly when a blob is missing |
| Archive.WalkIsPutList | test.go:26-80 | the recursion stores the files of the tree one after the other |
| Archive.TreePathsDistinct | test.go:29-45 | distinct names at every level make distinct paths |
| Archive.RoundTripIff | test.go:20-113 | archiving and extracting into an empty destination reproduces the tree exactly when the hash is injective on its contents |
| Archive.OneBlobPerContent | test.go:40-58 | one blob per distinct content |
| Archive.BlobOverBlob | test.go:49-77 | storing a file writes its blob over the one with the same hash, whose end stays exactly if it was longer, and indexes the path |
| Archive.OverDestination | test.go:87-111 | over a destination that holds files, a file is restored exactly if nothing longer stood at its path, and the end of a longer one stays; other paths are left alone |
| Archive.TreeOverDestination | test.go:20-113 | the same for a whole tree archived with a hash that is injective on its contents |
| Archive.WalkCounts | test.go:26-27 | the count is that of all entries at all levels, directories included |
| Archive.FilesInIff | test.go:26-80 | the walk lists exactly the files the tree holds, each under the names that lead to it |
| Counterexamples.SecondPartitionSurvives | service/maintenance_linux.go:184-190 | two partitions, the first mismatched: the second survives |
| Counterexamples.GapHidesTheLast | tools/parted/parted_linux.go:180-212 | with partitions 2 and 3 the count points at 2, and a new one falls into 3 and is refused |
| Counterexamples.WholeGrainsBlockTheNext | tools/parted/parted_linux.go:191-212 | a first request of exactly 15625 grains makes the second one fail |
| Counterexamples.WrappedSizeIsNeverQuiet | service/maintenance_linux.go:176-195 | a size whose bytes wrap to 448384 is created and then mismatched by the next pass |
| Counterexamples.OverwrittenRequestIsNeverQuiet | service/maintenance_linux.go:135-203 | 100 MB and then 103 MB asked for as partition 1 of one disk: both runs change the table |
| Counterexamples.PartitionBetweenIsQuiet | service/maintenance_linux.go:176-179 | the same requests are both passed by an existing partition of 102 MB |
| Counterexamples.OlderTailIsRejected | service/deployment.go:98-163 | one byte uploaded over a file of two is a length error whatever the digest |
| Counterexamples.MissingChunkHangs | service/deployment.go:147-150 | an upload of one byte without a chunk never returns |
| Counterexamples.EmptyTrailingChunkHangs | service/deployment.go:142-145 | an empty chunk behind the last byte keeps the upload from ever returning |
| Counterexamples.NoByteBehindTheTerminator | service/power_ctl.go:209-217 | a description that ends with the variable gets four zero units appended |
| Counterexamples.TenIsReadElsewhere | service/power_ctl.go:91 | for boot number 10 the entry of boot number 16 is read |
| Counterexamples.CollidingFilesAreLost | test.go:40-77 | two files with one hash are not both reproduced |
| Counterexamples.FailedLaunchAbandons | service/recording_windows.go:292-312 | a failed launch reaches a state in which no session can begin |
| Counterexamples.UpBeforeListening | service/service.go:95-110 | after the first poll the status is set and there is no listener yet |

## Left out

- GcdLcm.LCM: for three or more arguments fitting products are sufficient for the least common multiple, and WrappedProductHeals shows that they are not necessary; what zero, negative or wrapped arguments mean beyond the fold is not said.
- Repetition.RepeatedIdempotentIff: constraints that change the size of a partition in MB, under which a recreated partition can happen to match the request it replaced; FormatDisksIdempotentIff covers them where requests for the same disk agree.
- FormatDisks.Host.FormatDisks: the formatting phase, status messages, partition flags and labels, a failing label creation, and commits that write in part.
- WimApply.DeliveredIsSubsequence: empty texts, which the closed channel yields, are set aside; EmptyTextPossibleIff says when they occur.
- Recording.FinishStands: the recorded time, the process identifier, a progress line without a value, and the Status request, which only read or write other fields.
- UpdateLoader.Serve: opening and writing the temporary file and running the installer are taken to succeed.
- BootOrder.PowerCtl.RestartTo: the description of an entry is an arbitrary function of its number; RestartToOnce and the list of entries repeat the same search.
- Floating point: the size comparison is an exact integer difference, as it is for sizes below 2^53.
- SHA-1, gzip, UTF-16 decoding and trimming are arbitrary functions; injectivity and losslessness are hypotheses where they are needed.
- The memory model: shared fields are read and written in atomic steps; sends on the gRPC stream succeed; a goroutine that survives an early error return is modelled but nothing is promised about it.
- Slice capacity beyond the length of a slice in getBootDesc and ParsePath, where the slice expression behind the one that could use it panics; in NewFilePath it is modelled.
- Archive paths as strings, empty directories, the two-letter blob directories, and blobs from an earlier archive.
- ServiceBinding.ForgottenIff: counts the listeners the service overwrites; whether the gRPC server closes them when it is stopped, what it does after that, and announcing the service, are not part of this model.
- Real time, the multicast announcer, logging, process creation, power control, mounting and formatting commands, and generated protocol code: input and output without behaviour of their own.
