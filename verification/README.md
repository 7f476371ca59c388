# Verified models of Fuchsia host tools

A Dafny project that models the logic of nine host-side tools and proves what they are for. Input and
output (sockets, files, git, regular expressions, clocks) appear as parameters or as choices the
environment may make freely; everything decided by the tools' own code is modelled as that code does it,
including its error paths, the errors it ignores, and its 32- and 64-bit arithmetic.

`dafny verify dfyconfig.toml` checks the whole project.

| file | what it models | main results |
|---|---|---|
| `NetbootSender.dfy` | the netboot send loop of `tools/bootserver_old` as a step machine and as the loop itself | every packet of every run is faithful to the source; packets are contiguous between rewinds; cookies grow |
| `NetbootSystem.dfy` | that sender, the target's `bootloader_recv`, and a network that loses, repeats and reorders | the target always holds a prefix; a new packet is never taken for a repetition; what a return value of 0 means, and exactly when it stays true; from which states a transfer can still succeed |
| `GoldenText.dfy`, `Golden.dfy` | `tools/golden-util` over a file system in which any step may fail | failure safety of `regen`, with exact conditions for writes that do not go through; success without faults; regen-then-test as an exact condition |
| `Stem.dfy` | the integration cache of `scripts/sync-from-stem.py` | any series of calls agrees with one call; meaning and order-independence of the inverse index |
| `Globs.dfy` | visibility globs: the tree, its compression, and the matcher that reads the result | compression preserves meaning if and only if labels are prefix-free; which labels the printed lines show |
| `Completions.dfy` | GN label completion | where labels are cut, relative labels, exactly which completions are listed |
| `Licenses.dfy` | the match table that concurrent workers of `tools/check-licenses` fill | every interleaving gives the same table; nothing is lost |
| `DiskLayout.dfy`, `PartitionTable.dfy` | the partition allocator and the writes of `tools/make-fuchsia-vol` | disjoint, tight layout, aligned to every block size; exactly when every write stays in its partition |
| `GcsReader.dfy` | `ReadAt` on top of a forward-only stream | refines random access for every series of requests |
| `Transfer.dfy` | order and retry of `tools/bootserver` transfers | what a nil error means, in terms of the replies; the kernel goes last |
| `Cargo.dfy` | label mangling, group expansion and reachability of `scripts/generate_cargo.py` | a decodable prefix code; exact visit counts; exact reachability |
| `FormatSize.dfy` | `format_size` of `scripts/memory/treemap.py` | least unit and error bound for every size |
| `Basics.dfy`, `Text.dfy` | shared types; split, join, find and string order | |

Form follows the source: loops are methods with loops, objects that are updated in place are classes
(`NetbootSender.Transfer`, `Golden.FileSystem`, `Stem.StemCache`, `LicenseObjects.Match` and `License`,
`PartitionTable.Disk` and `Sizes`, `GcsReader.Stream` and `Reader`), and each is proved against a function
about which the lemmas speak.

## Where the code does not do what one would expect

The code is modelled as it is. Each of the following is a lemma, with the exact condition where there is one.

- A return value of 0 from `netboot_xfer` does not mean that the target still holds the file: a delayed
  second copy of NB_SEND_FILE empties the buffer again (`LateOpenLosesTheFile`). Handling NB_SEND_FILE anew is the
  only thing that can undo completeness (`WholeSurvivesUnlessReopened`, `SuccessIsCompleteIff`), and a network that
  delivers it at most once is safe (`SuccessIsCompleteIfOpenedOnce`).
- The answer to NB_SEND_FILE carries the size. Read a second time, it sends the host to the end of the file before
  it has sent anything, and the transfer cannot succeed any more (`RepeatedAnswerStrands`). `CanStillSucceedIff`
  says from which states it can.
- A repeated data packet that had been accepted is acknowledged with argument 0, which the host takes as a
  request to start over (`RepeatedDataAsksForRestart`). NB_FILE_RECEIVED is documented with the size as its
  argument, but carries 0.
- An empty file can never be transferred successfully (`EmptySourceNeverSucceeds`).
- `golden-util` ignores the errors of the writes that are to keep goldens.txt accurate. A write that is cut off
  can name another golden (`CutListsAnother`); it cannot name a missing one exactly if no recorded name begins with
  the name of one (`CutSafeIff`; `GapsSafeIff` and `UntruncatedSafeIff` for writes with gaps and a refused
  truncation). A golden whose truncation is refused keeps the end of its old bytes, and the copy counts as done
  (`CopyIfDifferent`).
- `golden-util` accepts golden names with a newline, and then lists others instead (`NewlineListsOthers`);
  listing and reading back is exact if and only if there are none (`ListingOfLines`, `Regen`).
- After a successful regen the test still fails if goldens.txt listed a missing or irregular file, or if the
  manifest copies goldens.txt itself while it changes (`RegenThenTest`).
- The inverse index of `sync-from-stem.py` depends on how often the script was run, exactly when two intervals
  between neighbouring pins meet, as after a pin that goes back and is passed again
  (`IndexIndependentIffNoCrossing`).
- A denied label whose path is a prefix of an allowed one is swallowed by a glob (`PreservedIffPrefixFree`). A
  label printed uncompressed loses its colon, and its line then shows only a label with an empty name one level
  down (`ExactLineMatches`), so that an allowed label is shown only if everything in or below its directory is
  allowed too (`VisibleIffDirectoryAllowed`).
- `make_label_relative` is documented to keep the label; it does so if and only if the base ends at a segment
  boundary (`RelativeRoundTripIff`).
- The text kept for a license depends on the schedule, unless all workers that find it find the same text first
  (`TextScheduleFreeIff`).
- The A/B/R record fits its partition if and only if the blocks of the vbmeta size hold 32 bytes, and an FVM that
  fills the disk may end before it starts (`WritesConfined`).
- `transfer` reports success when its context is cancelled, whatever was sent by then (`CancelledReportsSuccess`,
  `NilMeansAllSentIff`).
- `format_size` has no unit left exactly from 10000 exabytes on, and near multiples of 1024 exabytes (`Format`).

## Model

| member | source | states |
|---|---|---|
| `NetbootSender.IoRcv` | tools/bootserver_old/netboot.c:30-89 | a packet is handed on only if it is the first thing read after EAGAINs and passes the checks, where a bad magic or a cookie from the future still passes; it gives up exactly on ten EAGAINs, an error, a short read or a refusing command |
| `NetbootSender.StepKeepsInStep` | tools/bootserver_old/netboot.c:295-363 | one turn, whatever is read and received, keeps read cursor, current_pos and msg->arg equal; what it sends carries exactly the source bytes at its offset and is NB_LAST_DATA if and only if it reaches the end |
| `NetbootSender.SuppressedIffRewound` | tools/bootserver_old/netboot.c:162-361 | on a writable socket a turn holds its packet back exactly when it goes back to the acknowledged offset, and otherwise advances by what it sent |
| `NetbootSender.EventsFrontier` | tools/bootserver_old/netboot.c:340-363 | the packet or rewind of one turn leaves a receiver that follows it expecting exactly the sender's new position |
| `NetbootSender.RunIsFaithful` | tools/bootserver_old/netboot.c:294-364 | in every run, for every stream of replies, the three positions agree at the end and every packet is faithful to the source |
| `NetbootSender.RunIsContiguous` | tools/bootserver_old/netboot.c:294-364 | in every run on a writable socket the packets since the last rewind are contiguous from the offset rewound to |
| `NetbootSender.StepCookie` | tools/bootserver_old/netboot.c:138-187 | before the cookie wraps around, a turn with something left to send uses up exactly one cookie, whether its packet is held back or sent; at the end of the source it uses none; what is sent carries the cookie before |
| `NetbootSender.RunCookies` | tools/bootserver_old/netboot.c:138-187 | over a run, before it wraps around, the cookie has grown by one for each turn that had something to send, and every packet carries one of those used up |
| `NetbootSender.RunCookiesGrow` | tools/bootserver_old/netboot.c:138-187 | until the cookie wraps around, each packet of a run carries a greater cookie than all packets before it |
| `NetbootSender.Transfer.constructor` | tools/bootserver_old/netboot.c:242-294 | the loop starts at offset 0 with the whole source available |
| `NetbootSender.Transfer.XRead` | tools/bootserver_old/netboot.c:190-206 | returns the next bytes at the cursor and moves past them; 0 exactly at the end, no more than a payload |
| `NetbootSender.Transfer.XSeek` | tools/bootserver_old/netboot.c:208-219 | moves the cursor anywhere, except past the end of a memory buffer, where it fails and changes nothing |
| `NetbootSender.Transfer.Obey` | tools/bootserver_old/netboot.c:340-363 | an NB_ACK with a cookie sets all positions to its argument; otherwise the position advances by what was read; NB_FILE_RECEIVED completes |
| `NetbootSender.Transfer.TakeTurn` | tools/bootserver_old/netboot.c:295-364 | the loop body follows the step function: same state, the cookie included, same packet, same outcome |
| `NetbootSender.Transfer.SendLoop` | tools/bootserver_old/netboot.c:294-364 | the loop follows the run; all packets it logged are faithful and, on a writable socket, contiguous between rewinds, and their cookies grow until they wrap around |
| `NetbootReceiver.RepeatedDataAsksForRestart` | src/bringup/bin/netsvc/netboot.cc:315-387 | an accepted data packet gets no reply, and its repetition, which changes nothing, gets NB_ACK with argument 0 |
| `NetbootReceiver.ReceiveStaysWithin` | src/bringup/bin/netsvc/netboot.cc:315-387 | whatever packet arrives other than an opening, the target stays in its buffer, keeps what it has received and what lies beyond, adds at most the packet at its offset, and refuses one that does not fit |
| `NetbootSystem.ReceiveData` | src/bringup/bin/netsvc/netboot.cc:362-387 | a faithful packet, at any offset and any time, leaves the target with a prefix of the source and draws only well-formed replies |
| `NetbootSystem.ApplyKeepsInv` | tools/bootserver_old/netboot.c:283-364 | every action of host, target or network preserves the system invariant |
| `NetbootSystem.ExecKeepsInv` | tools/bootserver_old/netboot.c:283-364 | the invariant holds after every run of the system |
| `NetbootSystem.TargetHoldsPrefix` | src/bringup/bin/netsvc/netboot.cc:334-387 | in every run, once the target has answered, what it holds is a prefix of the source, and it never refuses a packet as too large |
| `NetbootSystem.NewPacketIsAnswered` | src/bringup/bin/netsvc/netboot.cc:315-387 | until the cookie wraps around, a data packet is new to the target whenever it first arrives, whatever arrived before it; at the offset of the target it is taken, and at any other it is answered with NB_ACK and that offset |
| `NetbootSystem.ClaimIsTrueWhenMade` | src/bringup/bin/netsvc/netboot.cc:377-386 | NB_FILE_RECEIVED is first sent in a state where the target holds the whole source |
| `NetbootSystem.ClaimedOnlyAfterWhole` | tools/bootserver_old/netboot.c:294-366 | any claim of success in a run is preceded by a moment at which the target held the whole source |
| `NetbootSystem.WholeSurvivesUnlessReopened` | src/bringup/bin/netsvc/netboot.cc:334-347 | a complete target stays complete through an action if and only if that is not the handling of NB_SEND_FILE anew |
| `NetbootSystem.WholeStays` | src/bringup/bin/netsvc/netboot.cc:334-387 | over any rest of a run without such a reopening the target stays complete |
| `NetbootSystem.SuccessMeansReceived` | tools/bootserver_old/netboot.c:294-366 | if netboot_xfer returns 0 there was a moment at which the target held the whole source, and it still does unless it was reopened since |
| `NetbootSystem.SuccessIsCompleteIfOpenedOnce` | tools/bootserver_old/netboot.c:283-366 | if NB_SEND_FILE is delivered at most once, returning 0 means that the target holds exactly the source, however data and replies were lost, repeated or reordered |
| `NetbootSystem.SuccessIsCompleteIff` | tools/bootserver_old/netboot.c:283-366 | after a return value of 0 the target holds the whole source if and only if it did at some moment after which NB_SEND_FILE was not handled anew |
| `NetbootSystem.EmptySourceNeverSucceeds` | tools/bootserver_old/netboot.c:299-312 | no run with an empty source ends in success |
| `NetbootSystem.TransferCanSucceedIff` | tools/bootserver_old/netboot.c:283-366 | from any state in which the target was left, a nonempty source can be transferred if and only if the target will answer the opening packet with NB_ACK, and then so that it holds all of it |
| `NetbootSystem.RecoverWith` | tools/bootserver_old/netboot.c:294-366 | a data packet under way is enough to bring a running transfer to a good end, wherever host and target stand, if the target has a file open or would open it anew |
| `NetbootSystem.HopelessStays` | src/bringup/bin/netsvc/netboot.cc:315-387 | a target that refused for good, a host stranded at the end without having sent data, and a refused opening stay so through every action |
| `NetbootSystem.CanStillSucceedIff` | tools/bootserver_old/netboot.c:283-366 | a running transfer can still succeed, before the cookie wraps around, if and only if the report is under way, or the target can take the file and there is a data packet under way, a reply that sends the host back, or something left to send |
| `NetbootSystem.RepeatedAnswerStrands` | tools/bootserver_old/netboot.c:340-355 | a second copy of the answer to the opening packet sends the host to the end before its first data packet, and then no run succeeds |
| `NetbootSystem.LateOpenLosesTheFile` | src/bringup/bin/netsvc/netboot.cc:334-347 | every nonempty source that can be transferred at all has a run in which netboot_xfer returns 0 and the target's buffer is empty again |
| `GoldenText.GoldensTxtExt` | tools/golden-util/main.go:152-152 | goldens.txt does not have the extension of a golden |
| `GoldenText.ExtIs` | tools/golden-util/main.go:127-132 | the extension runs from the last dot on, if no slash comes after it, and is empty otherwise |
| `GoldenText.ReadGoldensTxt` | tools/golden-util/main.go:292-314 | gives the set of nonempty lines, and an error exactly if one of them is not the name of a golden |
| `GoldenText.LineEndings` | tools/golden-util/main.go:299-311 | a line is read without its newline and without one carriage return before that |
| `GoldenText.ListingOfLines` | tools/golden-util/main.go:175-180 | golden names written one per line are read back as the same set if and only if none holds a newline |
| `GoldenText.NewlineListsOthers` | tools/golden-util/main.go:127-132 | a name made of two golden names and a newline passes the checks, and is listed as those two |
| `GoldenText.CutIsLines` | tools/golden-util/main.go:177-180 | a listing cut off anywhere is whole lines of the first names and the beginning of the next |
| `GoldenText.ListingOfCut` | tools/golden-util/main.go:292-314 | such a listing is read as the names written in full, and the last one as far as it got |
| `GoldenText.CutListsAnother` | tools/golden-util/main.go:177-180 | a recorded name a.golden.golden cut off lists a.golden instead |
| `GoldenText.StopIsCut` | tools/golden-util/main.go:177-180 | a write that stops somewhere is one of those in which each WriteString may fall short |
| `GoldenText.LineIsRunTogether` | tools/golden-util/main.go:177-180 | if any WriteString may fall short, every line is made of beginnings of names run together |
| `GoldenText.SetToSortedSlice` | tools/golden-util/main.go:361-368 | a sorted sequence with each element of the set once |
| `Golden.Validate` | tools/golden-util/main.go:103-138 | accepts a manifest if and only if directories are set, paths are not empty, goldens are plain .golden names, generated files are not, and both are without repetition |
| `Golden.GoldenPathsApart` | tools/golden-util/main.go:127-135 | in a valid manifest no golden's path is a generated path or goldens.txt |
| `Golden.CopyIfDifferent` | tools/golden-util/main.go:316-359 | wherever it fails it touches only the destination and never removes it; on success the destination holds the source's bytes, followed by its own old end if the ignored Truncate was refused, so that both are equal if and only if there was no such end; on a reliable file system it succeeds if and only if the source is a regular file and nothing irregular is in the place of the destination |
| `Golden.Overwrite` | tools/golden-util/main.go:339-341 | a refused Truncate leaves the end of a longer file behind what is written |
| `Golden.CopyAll` | tools/golden-util/main.go:183-197 | wherever it fails no file has vanished and only goldens have changed, and every name it has recorded exists; on success all goldens are copied and recorded, those not truncated with their old end; on a reliable file system it succeeds if and only if every copy can be made as things stood at the start |
| `Golden.Purge` | tools/golden-util/main.go:199-218 | removes only regular .golden files that the manifest does not have, and takes exactly the removed ones off the list, wherever it fails; on success all of them; on a reliable file system it succeeds |
| `Golden.WriteNames` | tools/golden-util/main.go:177-180 | the loop leaves what its writes, each as far as it went, add up to |
| `Golden.RewriteGoldensTxt` | tools/golden-util/main.go:167-181 | leaves goldens.txt alone if nothing changed, and otherwise what was written of the sorted new names over what the truncation left; if all of it went through, exactly the new names are listed if and only if none holds a newline |
| `Golden.StaysSafe` | tools/golden-util/main.go:149-181 | whatever was copied and removed before regen stopped, the names it goes on to write exist |
| `Golden.GoldenRightIff` | tools/golden-util/main.go:183-221 | after copying, purging and rewriting a golden is right if and only if it did not keep the end of a longer file |
| `Golden.StagesRegenerate` | tools/golden-util/main.go:140-221 | copying, purging and rewriting together leave the goldens, the .golden files and goldens.txt as specified, and change nothing else, if and only if no golden kept its end |
| `Golden.Regen` | tools/golden-util/main.go:140-221 | at whatever point it stops, the names it has recorded exist if those listed before did, and goldens.txt, if written in full, names only existing files unless a golden's name has a newline; on success, with goldens.txt written in full, the directory is regenerated if and only if no golden's name has a newline and no golden kept its old end; on a reliable file system it succeeds if and only if goldens.txt can be read and all copies can be made, and then regenerates the directory if and only if no name has a newline |
| `Golden.CutSafeIff` | tools/golden-util/main.go:167-181 | the rewrite of goldens.txt may stop anywhere without naming a missing file if and only if no recorded name begins with the name of a golden that does not exist |
| `Golden.GapsSafeIff` | tools/golden-util/main.go:167-181 | any of its writes may fall short without naming a missing file if and only if no line that beginnings of the names can run together to is the name of a golden that does not exist |
| `Golden.UntruncatedSafeIff` | tools/golden-util/main.go:175-180 | written in full over a goldens.txt that could not be truncated, it names only existing files if and only if what its old end lists exists, or cannot be read |
| `Golden.TestEntry` | tools/golden-util/main.go:246-274 | passes if and only if both files are there and equal byte for byte, although it compares lines |
| `Golden.Test` | tools/golden-util/main.go:223-290 | an error exactly if goldens.txt cannot be read, and otherwise true if and only if it lists exactly the manifest's goldens and each equals its generated file |
| `Golden.RegenThenTest` | tools/golden-util/main.go:140-290 | after a successful regen the test passes if and only if every name listed before outside the manifest was a regular file, and goldens.txt was up to date if the manifest copies it |
| `Golden.RegenAndTest` | tools/golden-util/main.go:140-290 | regen followed by test without faults passes if and only if every other file listed before was regular and goldens.txt, if the manifest copies it, was up to date |
| `Stem.NewCommitsSplit` | scripts/sync-from-stem.py:95-120 | the commits of a range are those of its newer part followed by those of its older part |
| `Stem.NewCommitsHas` | scripts/sync-from-stem.py:95-120 | a commit is among those of a range if and only if it lies in the range and is logged |
| `Stem.RangeHas` | scripts/sync-from-stem.py:171-179 | a range holds exactly the fuchsia revisions after the next older pin and up to its own |
| `Stem.NewRangesAppended` | scripts/sync-from-stem.py:162-179 | the ranges of a call, the special case of the oldest pair included, are exactly those the cache lacks, under keys it does not have |
| `Stem.UpdateAdvances` | scripts/sync-from-stem.py:89-179 | a call on the cache of an earlier head gives the cache of the current head, with the new ranges entered behind the old |
| `Stem.RunReaches` | scripts/sync-from-stem.py:49-183 | any series of calls at growing heads ends with the cache of the last head |
| `Stem.CacheAgreesWithOneCall` | scripts/sync-from-stem.py:49-183 | that cache equals the one a single call builds from nothing, entry for entry |
| `Stem.ReverseCommits` | scripts/sync-from-stem.py:37-46 | the nested loops compute the inverse in which later entries win |
| `Stem.ReverseIsLast` | scripts/sync-from-stem.py:42-46 | a revision is mapped exactly if some range has it, and then to the last such range in the dictionary |
| `Stem.ReverseOrderFree` | scripts/sync-from-stem.py:42-46 | with disjoint ranges the inverse does not depend on the order of the dictionary |
| `Stem.IndexIndependentOfCalls` | scripts/sync-from-stem.py:89-183 | with disjoint ranges the index returned after any series of calls is that of the whole history |
| `Stem.OverlapDistinguishesCalls` | scripts/sync-from-stem.py:167-183 | if two ranges overlap, one call and a call at every head return different indices |
| `Stem.IndexIndependentIffDisjoint` | scripts/sync-from-stem.py:49-183 | the index is the same after every series of calls if and only if no revision lies in two ranges |
| `Stem.GrowingPinsDisjoint` | scripts/sync-from-stem.py:167-179 | pins that never go back give disjoint ranges |
| `Stem.IndexNamesFirstIntegration` | scripts/sync-from-stem.py:37-183 | with such pins, after any series of calls, a revision is in the index if and only if it lies after the oldest pin and not after the newest, and then under the oldest integration commit that contains it |
| `Stem.DisjointIffNoCrossing` | scripts/sync-from-stem.py:167-179 | ranges are disjoint if and only if no two of the intervals from the next older pin to the own pin meet |
| `Stem.IndexIndependentIffNoCrossing` | scripts/sync-from-stem.py:49-183 | the index is the same after every series of calls if and only if no two such intervals between pins meet |
| `Stem.StemCache.constructor` | scripts/sync-from-stem.py:64-68 | the cache starts empty |
| `Stem.StemCache.EnterRanges` | scripts/sync-from-stem.py:167-179 | the loop enters the ranges of the newest pairs into the dictionary |
| `Stem.StemCache.UpdateStemHistory` | scripts/sync-from-stem.py:89-183 | the script's update of the dictionary is the modelled update, and it returns the inverse of the new ranges |
| `GlobTree.InsertAt` | scripts/gn/gen_visibility_globs.py:124-129 | inserting a label adds exactly the nodes on its path and changes the value at its end only |
| `GlobTree.UpdateAt` | scripts/gn/gen_visibility_globs.py:122-129 | the same for a list of labels: nodes are the prefixes, values the last ones set |
| `GlobTree.BuildAt` | scripts/gn/gen_visibility_globs.py:61-63 | the tree has a node for each prefix of a label, with value true for allowed labels, false for the others and none elsewhere |
| `GlobTree.CollectCovers` | scripts/gn/gen_visibility_globs.py:97-114 | every leaf is covered by exactly one yielded pattern, which allows it if and only if the leaf is allowed |
| `GlobTree.GlobIffAllAllowed` | scripts/gn/gen_visibility_globs.py:104-114 | a node becomes one glob if and only if it has children and everything below is allowed |
| `GlobTree.GlobsAreTopmost` | scripts/gn/gen_visibility_globs.py:97-114 | globs are yielded at exactly the topmost fully allowed inner nodes |
| `GlobTree.LabelsAreLeaves` | scripts/gn/gen_visibility_globs.py:61-63 | prefix-free labels are leaves of the tree |
| `GlobTree.LeavesAreLabels` | scripts/gn/gen_visibility_globs.py:61-63 | leaves of the tree are labels |
| `GlobTree.CompressionIsExact` | scripts/gn/gen_visibility_globs.py:61-114 | each of a prefix-free set of labels is covered by exactly one yielded pattern, which allows it if and only if it is to be allowed |
| `GlobTree.NodeAllowedIff` | scripts/gn/gen_visibility_globs.py:97-114 | a node of the tree is fully allowed if and only if all labels at or below it are |
| `GlobTree.UnderGlobIff` | scripts/gn/gen_visibility_globs.py:97-114 | a label of a prefix-free universe ends up under a glob if and only if everything in or below its directory is to be allowed |
| `GlobTree.PreservedIffPrefixFree` | scripts/gn/gen_visibility_globs.py:61-129 | compression preserves the meaning of every allowlist over a set of labels if and only if no label's path is a proper prefix of another's |
| `GlobTree.InnerLabelLost` | scripts/gn/gen_visibility_globs.py:97-114 | denying just a label on the way to others is not preserved |
| `GlobLabels.PartsOfSpelling` | scripts/gn/gen_visibility_globs.py:117-119 | the parts of //dirs:name are its directories and its name |
| `GlobLabels.UpdateTreeFromLabels` | scripts/gn/gen_visibility_globs.py:122-129 | the loop over label strings inserts their paths in order |
| `GlobLabels.GlobMatchesWhatItCovers` | scripts/gn/gn_util.py:67-79 | a printed glob makes a label visible if and only if the label lies below the glob's node |
| `GlobLabels.LabelLineMatches` | scripts/gn/gn_util.py:67-79 | a line //dirs:name makes only that label visible, and a line //dirs:* exactly the labels of that directory |
| `GlobLabels.ExactLineMatches` | scripts/gn/gen_visibility_globs.py:64-67 | the line of a label printed uncompressed makes a label visible if and only if that one has an empty name in the directory the line now spells |
| `GlobLabels.VisibleIffDirectoryAllowed` | scripts/gn/gen_visibility_globs.py:61-67 | of prefix-free labels, all printed lines together make exactly those visible for which everything in or below their directory is to be allowed |
| `Completions.SplitDirs` | scripts/gn_complete/complete.py:217-230 | the loop cuts directories before each slash, after a leading //; where that is in the text, `Completions.SegmentsEndAtBoundaries` says |
| `Completions.SplitLabel` | scripts/gn_complete/complete.py:184-238 | the method computes the segments, whose ends are given below, and fails on a toolchain that was never opened |
| `Completions.SplitJoins` | scripts/gn_complete/complete.py:184-238 | the segments joined are the label again; splitting fails exactly on a label that ends in ")" and has no "(" |
| `Completions.SegmentsEndAtBoundaries` | scripts/gn_complete/complete.py:184-238 | a label is cut exactly at these places before its toolchain: right after a leading //, before each slash in front of the first colon that is neither at the start nor right after that, and before the first colon; no segment is empty |
| `Completions.MatchesKeepThePrefix` | scripts/gn_complete/complete.py:241-258 | a matching target made relative always starts with what the user typed, so that insert_label does not raise |
| `Completions.MatchesBelow` | scripts/gn_complete/complete.py:132-258 | in a directory, what is typed is matched against the labels below it and, after a colon, against its own targets, which are shown without the directory; nothing elsewhere matches |
| `Completions.RelativeRoundTripIff` | scripts/gn_complete/complete.py:142-181 | making a label relative and concatenating it back gives the label if and only if the base ends at a segment boundary of it |
| `Completions.InsertLabel` | scripts/gn_complete/complete.py:45-59 | fails exactly on a wrong prefix or an unsplittable rest, and otherwise inserts the segments of the rest |
| `Completions.ListCompletions` | scripts/gn_complete/complete.py:61-98 | the method yields the spelled completions in order |
| `Completions.CompletionsLieOnLabels` | scripts/gn_complete/complete.py:61-98 | every completion lies on some inserted label |
| `Completions.OnTrunkIff` | scripts/gn_complete/complete.py:87-91 | a node lies on the single-child descent if and only if every label lies on the way to it or beyond it |
| `Completions.TrieLeafIff` | scripts/gn_complete/complete.py:45-59 | a node has no children if and only if no label properly extends it |
| `Completions.CompletionIff` | scripts/gn_complete/complete.py:61-98 | a completion is yielded if and only if it is the beginning of some label, all labels agree up to its last segment, and either they do not agree on that one or nothing extends it |
| `Completions.LabelPassesThroughOneIff` | scripts/gn_complete/complete.py:61-98 | an inserted label passes through exactly one completion if and only if it is not the case that another label properly extends it and all labels lie on the way to it or beyond; such a label passes through none |
| `Completions.InsertedAre` | scripts/gn_complete/complete.py:254-258 | exactly the matching targets are inserted |
| `Completions.Complete` | scripts/gn_complete/complete.py:241-261 | main computes the completions of the matching targets, or raises |
| `Completions.CompletionsExtendTheSearch` | scripts/gn_complete/complete.py:241-261 | every printed completion extends what the user typed, and some matching target as it is shown extends the completion |
| `Completions.MatchingTargetsAreReached` | scripts/gn_complete/complete.py:241-261 | every matching target as it is shown extends some printed completion, unless a longer target continues it and none branches off before |
| `LicenseKeys.KeyDeterminesWords` | tools/check-licenses/license.go:121-133 | the words of a text can be read off its key |
| `LicenseKeys.SameKeyIffSameWords` | tools/check-licenses/license.go:121-133 | two texts share a key if and only if they have the same words, comment signs and bullets aside |
| `LicenseKeys.WordsAtSeparator` | tools/check-licenses/license.go:121-133 | a space, #, * or - separates words and is part of none: the words are those before and those after it |
| `LicenseKeys.WordsAtSlashes` | tools/check-licenses/license.go:121-133 | so do two slashes that do not follow a slash |
| `LicenseKeys.OneWord` | tools/check-licenses/license.go:121-133 | nothing else does: a text without these is one word |
| `LicenseKeys.SeparatorsAreAlike` | tools/check-licenses/license.go:121-133 | putting one separator for another, two slashes for one, or several for one leaves the key |
| `LicenseTable.RunRecords` | tools/check-licenses/license.go:103-119 | after any run each key is there exactly if it was found, with every file as often as found, exactly the copyrights found, a Used mark exactly if one was set, and the text found first |
| `LicenseTable.PermutedRunsAgree` | tools/check-licenses/license.go:103-119 | runs of the same operations in any order agree on keys, files, copyrights and marks |
| `LicenseTable.InterleavingFacts` | tools/check-licenses/license.go:107-115 | no interleaving of workers loses or repeats an operation or marks before it finds |
| `LicenseTable.AnyScheduleSameTable` | tools/check-licenses/license.go:103-119 | however any number of workers are interleaved the table is the same |
| `LicenseTable.TextIsFirst` | tools/check-licenses/license.go:109-114 | the text kept under a key is that of its first find |
| `LicenseTable.FirstFindOfSome` | tools/check-licenses/license.go:107-115 | the first find of a key in an interleaving is the first find of the worker it comes from |
| `LicenseTable.RunsFirst` | tools/check-licenses/license.go:107-115 | any worker may run to its end before the others start |
| `LicenseTable.KeepsTextOf` | tools/check-licenses/license.go:109-114 | each worker that finds a key has a schedule in which the text it finds first is the one kept |
| `LicenseTable.TextScheduleFreeIff` | tools/check-licenses/license.go:109-114 | the text kept under a key is the same in every interleaving of the workers if and only if all workers that find the key find it first with the same text |
| `LicenseObjects.Match.constructor` | tools/check-licenses/match.go:32-50 | a new match has one copyright, its text, one file and no mark |
| `LicenseObjects.Match.Merge` | tools/check-licenses/match.go:52-63 | merging adds the other's copyrights, projects and files and keeps the own text and any mark |
| `LicenseObjects.License.constructor` | tools/check-licenses/license.go:66-73 | a license starts with an empty table |
| `LicenseObjects.License.Record` | tools/check-licenses/license.go:107-115 | the locked part performs one find on the table, returns the object that is in the table, and leaves objects already there in place |
| `LicenseObjects.License.Search` | tools/check-licenses/license.go:102-119 | the same with the key of the text found; without a match nothing changes |
| `LicenseObjects.License.SearchAndMark` | tools/check-licenses/licenses.go:103-114 | a mark set on the returned match is in the table |
| `BlockMath.BlocksHold` | tools/make-fuchsia-vol/make-fuchsia-vol.go:362-365 | the blocks allotted hold the bytes with less than a block to spare |
| `BlockMath.AlignUpIsLeast` | tools/make-fuchsia-vol/make-fuchsia-vol.go:355-360 | the start is the least aligned block at or after the first |
| `DiskLayout.OptimalBlockAlign` | tools/make-fuchsia-vol/make-fuchsia-vol.go:346-370 | in 64-bit arithmetic without overflow, the placement of unbounded arithmetic, whose alignment `DiskLayout.UnitIs` and `DiskLayout.AlignedIff` pin down |
| `DiskLayout.UnitIs` | tools/make-fuchsia-vol/make-fuchsia-vol.go:346-354 | the alignment is the largest of the three block sizes in whole logical blocks |
| `DiskLayout.AlignedIff` | tools/make-fuchsia-vol/make-fuchsia-vol.go:346-360 | where the block sizes divide the largest, a block is a multiple of the alignment if and only if its byte offset is a multiple of each block size given |
| `DiskLayout.PowersAreNested` | tools/make-fuchsia-vol/make-fuchsia-vol.go:346-354 | powers of two divide the largest of them |
| `DiskLayout.LayoutIsAligned` | tools/make-fuchsia-vol/disk.go:165-277 | then every partition starts at the least block after its predecessor whose byte offset is a multiple of each block size given |
| `DiskLayout.LayoutIsWell` | tools/make-fuchsia-vol/disk.go:165-277 | every partition starts at the least aligned block after its predecessor's end and holds its size with less than a block to spare |
| `DiskLayout.LayoutIsDisjoint` | tools/make-fuchsia-vol/disk.go:165-277 | partitions are strictly increasing and pairwise disjoint |
| `PartitionTable.Disk.constructor` | tools/make-fuchsia-vol/disk.go:162-165 | the table starts empty with the usable range given |
| `PartitionTable.Disk.Add` | tools/make-fuchsia-vol/disk.go:215-222 | aligning and appending one partition extends the layout by it |
| `PartitionTable.Disk.AddSlot` | tools/make-fuchsia-vol/disk.go:215-231 | an image and its vbmeta partition are appended under their names |
| `PartitionTable.Disk.AddAbr` | tools/make-fuchsia-vol/disk.go:212-277 | the seven A/B/R partitions are appended in order, and their starts are returned under the right names |
| `PartitionTable.Disk.CreatePartitionTable` | tools/make-fuchsia-vol/disk.go:160-331 | the table is the layout of the sizes asked for, plus an FVM that runs to its placed end or to the last usable block, with the right names; the starts returned are those of the table, and fvmSize becomes the FVM's length in bytes, truncated to 64 bits |
| `PartitionTable.TableIsDisjoint` | tools/make-fuchsia-vol/disk.go:160-302 | all partitions, the FVM included, are increasing and disjoint |
| `PartitionTable.TableIsAligned` | tools/make-fuchsia-vol/disk.go:160-302 | if the block sizes divide the largest, every partition, the FVM included, starts at the least block after its predecessor whose byte offset is a multiple of each of them |
| `PartitionTable.OffsetIff` | tools/make-fuchsia-vol/disk.go:344-352 | an offset multiplied in 64 bits and taken as signed is never beyond the true one, and is the true one if and only if that is below 2^63 |
| `PartitionTable.InsideIff` | tools/make-fuchsia-vol/make-fuchsia-vol.go:259-263 | a write at the start of a partition stays inside if and only if its offset did not overflow and its length fits |
| `PartitionTable.WritesConfined` | tools/make-fuchsia-vol/disk.go:344-447 | over the whole table, write by write: it stays in its partition, and a built FVM takes up all of its own, if and only if its offset does not overflow, the boot record fits the blocks of the vbmeta size, and the FVM neither ends before it starts nor overflows the length handed on |
| `PartitionTable.FvmCopied` | tools/make-fuchsia-vol/disk.go:440-441 | a copied FVM image stays in its partition if and only if the offset does not overflow and the partition does not end before it starts |
| `PartitionTable.FvmBuilt` | tools/make-fuchsia-vol/disk.go:442-446 | the fvmSize that was computed, taken as signed, is the partition's length at the right offset if and only if neither overflows and the partition does not end before it starts |
| `PartitionTable.WritesApart` | tools/make-fuchsia-vol/disk.go:333-447 | no write into the table, the FVM included, touches what another wrote |
| `PartitionTable.FatEndsInside` | tools/make-fuchsia-vol/disk.go:169-175 | the FAT geometry ends before its partition does, and has a block if and only if a block's worth of bytes was fitted |
| `PartitionTable.PlacedStaysPut` | src/lib/thinfs/gpt/gpt.go:737-741 | realigning the table moves none of its partitions |
| `GcsReader.Stream.ReadFull` | tools/bootserver/image.go:161-168 | reading in full from a stream with arbitrary short reads gives the next bytes, clipped to the end, and says whether all, some or none were there |
| `GcsReader.Reader.constructor` | tools/bootserver/image.go:146-153 | no stream is open at first |
| `GcsReader.Reader.Skip` | tools/bootserver/image.go:159-166 | moves the stream to the offset or to the end, and gives up exactly if it was at the end already |
| `GcsReader.Reader.ReadAt` | tools/bootserver/image.go:145-174 | for every earlier history, offset and buffer the bytes are the requested slice clipped to the end, the stored index is the true stream position, and for a nonempty buffer EOF is reported if and only if the slice is short |
| `GcsReader.Reader.ReadMany` | tools/bootserver/image.go:145-174 | every series of requests is answered as random access would |
| `TransferOrder.KernelHasLastIndex` | tools/bootserver/boot.go:71-97 | the kernel, and no other name, firmware of any type included, has the last index |
| `TransferOrder.OrderOfIff` | tools/bootserver/boot.go:71-97 | a name has an index if and only if it is in the order, and then its place there, or is a firmware name, and then the fourth |
| `TransferOrder.InOrderIff` | tools/bootserver/boot.go:285-306 | sorted means by index, and within an index by name |
| `TransferOrder.ArrangementIsUnique` | tools/bootserver/boot.go:285-306 | the same files have only one sorted arrangement |
| `TransferOrder.LastIsKernelIff` | tools/bootserver/boot.go:285-306 | in every sorted arrangement the last file is the kernel if and only if there is a kernel |
| `Transfer.AttemptShows` | tools/bootserver/boot.go:396-429 | an attempt that ends well has dealt with all files in order and skipped only firmware; one that fails ends with the refusal of a file that is not firmware; one that is cancelled has dealt with a proper prefix |
| `Transfer.LogFollowsReplies` | tools/bootserver/boot.go:396-429 | the log has one entry for each step used that was not cancelled: accepted, waited, skipped or refused exactly as the device replied, about the first file not dealt with before; the attempt ends well if and only if all files were dealt with |
| `Transfer.SentIffSettling` | tools/bootserver/boot.go:396-429 | an attempt ends well if and only if the replies settle one file after the other, each after nothing but busy replies, where only firmware may be settled by a refusal |
| `Transfer.AttemptEndsAt` | tools/bootserver/boot.go:396-429 | an attempt uses its steps in order, and its last step found the context cancelled if and only if it ended so |
| `Transfer.NilMeansAllSentIff` | tools/bootserver/boot.go:393-430 | if there is no error, all attempts but the last were refused, and in the last all files were sent in order if and only if the last check made did not find the context cancelled, which is so if and only if from some step on and up to the last the device's replies settled one file after the other with nothing but busy replies between; if it was cancelled, a proper prefix was sent |
| `Transfer.ErrorMeansAllRefused` | tools/bootserver/boot.go:393-430 | an error means that every attempt made was refused, and that the last was number 21 or was followed by a cancellation, and none before it was |
| `Transfer.CancelledReportsSuccess` | tools/bootserver/boot.go:402-405 | any proper prefix of the files can be all that was sent when transfer reports success |
| `Transfer.OutcomeIsOfLast` | tools/bootserver/boot.go:393-430 | each attempt starts where the one before ended, all but the last were refused, and there is no error if and only if the last was sent or cancelled, and an error if and only if it was refused |
| `Transfer.SettlingReportsSuccess` | tools/bootserver/boot.go:393-430 | replies that settle one file after the other from the start give no error after one attempt |
| `Transfer.TransferImagesSends` | tools/bootserver/boot.go:285-306 | if there is no error and the last check was not cancelled, the files went by increasing index, all but firmware were accepted, and hasRAMKernel is set if and only if a kernel was among them |
| `Transfer.AttemptLoop` | tools/bootserver/boot.go:396-429 | the nested loops follow the attempt function, the log of which follows the replies |
| `Transfer.TransferAll` | tools/bootserver/boot.go:393-430 | the retried loops follow the retry function |
| `Mangling.MangleLabel` | scripts/generate_cargo.py:93-114 | fails exactly without //, and otherwise encodes the label up to the first "(" character by character |
| `Mangling.MangleAround` | scripts/generate_cargo.py:98-113 | what stands before and after one of / : . - _ is mangled by itself, and that sign is spelled by its code |
| `Mangling.MangleKeeps` | scripts/generate_cargo.py:112-113 | a name without those signs stays as it is |
| `Mangling.DecodeOfMangle` | scripts/generate_cargo.py:93-114 | reading a mangled name from left to right gives the label back |
| `Mangling.DecodeIffMangled` | scripts/generate_cargo.py:93-114 | a name decodes to a label if and only if it is that label mangled |
| `Mangling.SameNameIffSameLabel` | scripts/generate_cargo.py:93-114 | two labels get the same name if and only if they agree up to the first "(" |
| `Expansion.PopLast` | scripts/generate_cargo.py:282-292 | one pop keeps the leaves still to visit and makes the expansion smaller |
| `Expansion.WriteDeps` | scripts/generate_cargo.py:281-292 | if the groups come upon are acyclic and their targets in the project, the worklist ends, having visited the leaves of the expansion in stack order |
| `Expansion.VisitsMatchOccurrences` | scripts/generate_cargo.py:281-292 | each leaf is visited exactly as often as the recursive expansion contains it |
| `Expansion.VisitsAreBackwards` | scripts/generate_cargo.py:281-292 | the worklist visits the plain expansion, in which every group stands for its deps in order, from its end to its beginning |
| `Expansion.LeafIffPath` | scripts/generate_cargo.py:162-170 | a target is visited if and only if it is no source set or group with deps and a way through source sets and groups leads to it |
| `Reachability.AddNew` | scripts/generate_cargo.py:154-158 | all dependencies are added, and exactly the new ones are put on the stack |
| `Reachability.ReachableTargets` | scripts/generate_cargo.py:147-160 | the result is exactly the set of targets a path of dependencies leads to, and it fails exactly if one of them is not in the project |
| `FormatSize.Reduce` | scripts/memory/treemap.py:104-114 | the loop ends in the first unit of which the size is below 10000 and is not, but for less than one, a multiple of the next, with the value split exactly into units, 1024ths and a rest |
| `FormatSize.DecimalError` | scripts/memory/treemap.py:119-125 | rounding a remainder to tenths is off by at most 74/1024 of the unit above and less than 50/1024 below |
| `FormatSize.NoUnitLeftIff` | scripts/memory/treemap.py:104-117 | the loop runs past the last unit if and only if the size is 10000 exabytes or more, or is a multiple of 1024 exabytes but for less than one |
| `FormatSize.Format` | scripts/memory/treemap.py:104-125 | every result has the first unit that fits, no decimal if and only if the value is an exact multiple of it, a digit from 0 to 9, and an error of at most 74/1024 above and less than 50/1024 below; there is none exactly if no unit is left |

## Left out

- Netboot: select and poll timing, throttling and progress display; send errors after NB_SEND_FILE appear only as a missing reply.
- Netboot: the path on which the size of the file cannot be determined and is taken as 0, and a file that changes while it is sent.
- Netboot: packets from other senders or from an earlier transfer; the network carries only what host and target have sent in this one.
- Netboot: the target's receiver is modelled on values, with one active file; NB_COMMAND, NB_BOOT and NB_REBOOT end as an unanswered command.
- golden-util: Seek to the start of an open regular file, which has no failing case, and a line beyond the scanner's limit.
- golden-util: a rewrite of goldens.txt that is both cut off and not truncated is modelled, but has no safety condition of its own.
- golden-util: symbolic links, path cleaning by filepath.Join, and the progress report.
- sync-from-stem: histories with merges, and the git, jiri and JSON calls; a run is a series of calls at growing heads.
- gen_visibility_globs: nodes are values, not objects updated in place; the suffix filter and verbose output of main are not modelled.
- Visibility labels with a toolchain or a relative spelling are not modelled.
- complete.py: the nested dictionaries are values, not updated in place; reading the project file is not modelled.
- check-licenses: regular expressions, the allow list, metrics, the file tree, and the choice of licenses to try on a file.
- make-fuchsia-vol: GUIDs, the hybrid MBR record, the writing of the partition table itself, and placements that overflow 64 bits; sizes are positive values of the signed flags.
- make-fuchsia-vol: gpt.Update is taken to supply the usable range; its refusal of partitions of one block is not modelled.
- bootserver: downloads, the mapping from arguments to names, and errors on opening an object; sort.Slice is any sorted arrangement.
- generate_cargo: what is written for each leaf.
- treemap: the rendering of the result as text, and everything but format_size.
- WriteDeps: requires a ranking of the targets it comes upon, because on a cycle the source does not end, and on a missing target it raises.
- CanStillSucceedIff: speaks of runs in which the 32-bit cookie has not wrapped around.
- NewPacketIsAnswered: likewise; a packet whose cookie has wrapped around may be taken for a repetition.
- LayoutIsAligned: for block sizes that do not divide the largest, the alignment is only the bound of `DiskLayout.UnitIs`, as in the source.
