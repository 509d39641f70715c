# Magisk native code, modelled and verified

This project models the parts of Magisk's native code whose correctness is hardest to see from
one function at a time, and proves what they promise for every input, every run or every
reachable state. Each module stands for one component.

- **Thread pool** (`ThreadPool`). One lock, two condition variables, a slot for one task. The
  pool is a state machine over its critical sections, with spurious wake-ups and time-outs; a
  class holds the shared record and each of its methods is one critical section. No task is
  lost, run twice or left alone in the slot, and every run without new submissions and spurious
  wake-ups is bounded and can only end with every task finished.
- **Module overlay** (`FileTree`, `Overlay`, `Collect`). Module trees are merged and mounted
  over the real file system, by bind mounts or by rebuilding a directory in a tmpfs, with
  `.replace` directories and directories over symbolic links. The view after `commit` is compared
  with a plain overlay, path by path.
- **Boot images** (`BootHeader`, `BootLayout`, `BootImage`, `RamdiskTable`, `BootRepack`). Eight
  header layouts at byte level, nine page-aligned blocks, `unpack -n`, `repack -n`. Any set of
  files that agrees with the header is found again block for block, and no other set is.
- **cpio archives** (`Names`, `CpioFormat`, `CpioBackup`). Writing and reading archives, and the
  backup that records what a patch changed so that it can be undone.
- **LZ4 streams** (`Chunker`, `Lz4Stream`, `Format`, `LittleEndian`). The block encoder and
  decoder of the legacy format and LG's variant, and the test that tells them apart.
- **SELinux policy language** (`PolicyLexer`, `PolicyParser`, `PolicyText`). Tokenizer and parser
  for all sixteen statements, measured against a printer.
- **SELinux rule table** (`AvTab`, `RuleTable`, `XpermTable`). Wildcards, lists and extended
  permissions, with the meaning of the table as sets of granted bits and ioctls.
- **Denylist** (`DenyList`). Two maps and a database that must agree, against a plain set of pairs,
  in sequence and with threads that interleave.
- **zImages** (`ZImage`, `ZImageParse`). Splitting a self-extracting kernel and relocating what
  stands around a payload of another size.
- **Mount option filter** (`PatternFilter`). In-place deletion from a buffer.

Code that works by updating state is modelled by classes and by methods with loops, each proved
against a specification; what the source promises is then proved of the specification.

Where promises of the code's comments and documentation do not hold everywhere, the exact
condition is stated and proved in both directions, or inputs on which they fail are given:

- A module's file or directory is lost where the real entry has the other kind
  (`Overlay.CommittedIsOverlaid`, `Overlay.FileOverDirectoryIsLost`).
- An LZ4 stream that starts with an empty write, or an LG stream whose length equals the magic
  number, does not decode to its input; nor does the header alone that one empty write leaves
  (`Lz4Stream.RoundTrip`).
- A restore gives the original back only when every backup name stands for its entry, with and
  without compression, and something was recorded (`CpioBackup.RestoreIsExact`,
  `CpioBackup.UnchangedIsLost`).
- A `~{...}` list of extended permissions leaves the complement of its last range only
  (`XpermTable.ResetListIsComplement`, `XpermTable.ResetListForgets`).
- `deny s t c p` leaves what the attributes of the two types grant (`RuleTable.DenyOnePair`).
- Repacking after a file was removed can leave its size in the header; and an extra block of one
  to four bytes turns a header without version into one with a version
  (`BootRepack.ConsistentReparses`, `BootRepack.ReparsedIsConsistent`,
  `BootRepack.RemovedExtraIsInconsistent`).
- Database writes of the denylist follow after the lock is released, so two threads can leave a
  row the list does not have (`DenyList.LateInsertLeavesRow`). Once all writes are made, rows and
  list agree exactly when changes and writes end alike for every row (`DenyList.RowsAgreeIff`),
  as they do when writes are made in the order of the changes (`DenyList.InOrderAgrees`).
- Removing an option can expose another one (`PatternFilter.RemovalCanExpose`). One pass is enough
  exactly when at no match the bytes kept on its two sides form a pattern
  (`PatternFilter.OnePassIff`), so whenever every option ends at a separator
  (`PatternFilter.WholeOptionsSettle`).
- Unpacking and repacking a vendor image with a ramdisk table gives the same blocks only when the
  parts tile the ramdisk block and parts of one name have the same bytes
  (`BootRepack.UnpackThenRepack`, `BootRepack.SharedNameLosesPart`).
- Relocated words of a zImage cannot always be told from others (`ZImage.RelocateUndone`,
  `ZImage.AmbiguousWord`). So a pointer to the start of the offset table is not shifted with it when
  the old payload ended on a word and the new one does not (`ZImage.AddressFollows`,
  `ZImage.TableStartIsMisplaced`).
- A cpio archive that has an entry called `.`, `..` or `TRAILER!!!` does not survive being written
  and read (`CpioFormat.LoadOfDump`).
- An empty LG archive is labelled as a legacy one (`Lz4Stream.LabelsAreRight`).

The grammar in the comments of `statement.rs` asks for at least one name between braces; the code
accepts `{ }`, and the model follows the code. A test in the same file (lines 1195-1203) expects
commas to separate names; the parser refuses every text with a comma (`PolicyText.CommaIsRefused`).

## Model

| member | source | states |
|---|---|---|
| `ThreadPool.StepKeepsInv` | native/src/core/thread.rs:28-93 | every step, whatever thread a notification picks, keeps the whole invariant: exact counters, three core workers that never leave, each task in exactly one place, each started once, a served slot, justified blocking |
| `ThreadPool.ReachableInv` | native/src/core/thread.rs:28-93 | the invariant holds after every run from the empty pool |
| `ThreadPool.ConservedStep` | native/src/core/thread.rs:36-64 | a task is in exactly one of: waiting to be placed, slot, running, finished; no two workers run the same task |
| `ThreadPool.PlacesStep` | native/src/core/thread.rs:36-92 | a step moves at most one task, one stage further in its life, and leaves all others where they are |
| `ThreadPool.CountsStep` | native/src/core/thread.rs:38-55 | `idle_threads` counts exactly the parked workers, `total_threads` the living ones, and core workers number min(3, total) |
| `ThreadPool.BlockedStep` | native/src/core/thread.rs:74-78 | a blocked submitter implies a full slot or a submitter that was told the slot is free |
| `ThreadPool.SlotNeverOverwritten` | native/src/core/thread.rs:53-92 | a task in the slot stays there until a worker takes that task |
| `ThreadPool.TaskNeverStranded` | native/src/core/thread.rs:28-93 | after every run, a task in the slot means some worker is starting, running or already woken, so a time-out between submit and wake-up cannot strand it |
| `ThreadPool.UnfinishedMeansEnabled` | native/src/core/thread.rs:28-93 | no deadlock: while a submitted task is unfinished, a step other than a time-out can be taken |
| `ThreadPool.QuietRunIsBounded` | native/src/core/thread.rs:28-93 | without new submissions and spurious wake-ups, runs are bounded by a measure of the state |
| `ThreadPool.QuietRunsFinishEverything` | native/src/core/thread.rs:28-93 | such a run, when it can go no further, has finished every submitted task |
| `ThreadPool.TaskMayWaitForRunningTasks` | native/src/core/thread.rs:39-51 | a reachable state with a task in the slot, every living worker running and none idle: the time-out of an extra worker can leave the task to the running ones |
| `ThreadPool.Pool.WorkerEnters` | native/src/core/thread.rs:36-55 | entering the lock is the step of the state machine and keeps the invariant; the slot is emptied |
| `ThreadPool.Pool.WorkerResumes` | native/src/core/thread.rs:53-55 | waking with the lock is the step of the state machine and keeps the invariant |
| `ThreadPool.Pool.WorkerLeaves` | native/src/core/thread.rs:44-50 | a timed-out worker leaves without looking at the slot; the invariant still holds |
| `ThreadPool.Pool.SubmitTask` | native/src/core/thread.rs:74-92 | one turn of `exec_task_impl` is the step of the state machine; a new thread is core exactly when fewer than three live |
| `Overlay.OverlaidByPath` | native/src/core/module.rs:266-432 | the plain overlay, path by path: the module's node if it has one, nothing below a node that is no directory, the real entry otherwise; below a replaced directory the module's own directory or nothing, and below a real link that a module has a directory over, what the link leads to |
| `Overlay.ElsewhereIsReal` | native/src/core/module.rs:370-404 | without `.replace` and without directories over links, a path that no module has shows the real entry |
| `Overlay.ReplaceIgnoresReal` | native/src/core/module.rs:348-368 | what a replaced directory shows does not depend on any real entry |
| `Overlay.CommittedIsOverlaid` | native/src/core/module.rs:286-336 | what `commit` shows equals the plain overlay if and only if the kinds agree where module and real tree both have an entry |
| `Overlay.RootView` | native/src/core/module.rs:286-336 | at a partition root unsupported children are dropped, the root is never rebuilt in tmpfs, and the view is the overlay by path exactly when the kinds agree |
| `Overlay.FileOverDirectoryIsLost` | native/src/core/module.rs:327-329 | a module file over a real directory is not mounted: the view stays as it was |
| `Overlay.MirrorIsIdentity` | native/src/core/module.rs:370-398 | mirroring a directory that no module touches rebuilds it exactly |
| `Overlay.Mounts.BindMount` | native/src/core/module.rs:39-45 | a bind mount replaces the target, or changes nothing when it cannot be made |
| `Overlay.Mounts.Retain` | native/src/core/module.rs:289-313 | which children stay and whether the directory must be rebuilt, for roots and other directories, `.replace` included |
| `Overlay.Mounts.Commit` | native/src/core/module.rs:286-336 | `commit` changes the view at its path to the committed tree and nowhere else |
| `Overlay.Mounts.CommitChildren` | native/src/core/module.rs:320-325 | committing children one after the other gives the committed directory |
| `Overlay.Mounts.CommitTmpfs` | native/src/core/module.rs:338-432 | the worker directory receives exactly the overlay of the path, mirrored entries included, also through a real link and for a replaced directory |
| `Overlay.Mounts.MirrorEntries` | native/src/core/module.rs:370-398 | real entries that no module touches are copied, the others are not |
| `Overlay.Mounts.MergeChildren` | native/src/core/module.rs:348-404 | the module's children complete the mirrored entries, or nothing in a replaced directory, to the overlay |
| `Overlay.Mounts.MergeOne` | native/src/core/module.rs:350-364 | one child: in a replaced directory, a directory is bind-mounted from the module that has the `.replace` file |
| `Collect.CollectNode` | native/src/core/module.rs:214-260 | collecting one module inserts where there is nothing and goes into directories only |
| `Collect.MergeByPath` | native/src/core/module.rs:214-260 | after collecting, a path shows what it showed, or the module's entry if nothing is in the way |
| `Collect.CollectModules` | native/src/core/module.rs:853-876 | modules are collected in their order; one without a `system` directory adds nothing |
| `Collect.CollectedByPath` | native/src/core/module.rs:853-876 | at each path whose proper prefixes are all directories in the result: kind and source of the earliest module that has the path; nothing elsewhere |
| `FileTree.GraftChild` | native/src/core/module.rs:39-45 | replacing an entry of a directory is replacing that directory with the entry changed |
| `FileTree.LookupGraftElsewhere` | native/src/core/module.rs:39-45 | mounts on paths that part ways do not see each other |
| `Chunker.CutAppend` | native/src/base/misc.rs:229-253 | cutting data into full blocks can go on where earlier data left off |
| `Chunker.Chunker.AddData` | native/src/base/misc.rs:229-253 | a full block and the rest make up what was pending and what came in; without a block everything is pending |
| `Chunker.Chunker.GetAvailable` | native/src/base/misc.rs:255-259 | the pending bytes are handed out once |
| `Lz4Stream.Encoder.WriteAll` | native/src/boot/compress.rs:107-123 | writing appends to the input the stream stands for, whatever the sizes of the writes; the magic number goes out while nothing was written |
| `Lz4Stream.Encoder.Finish` | native/src/boot/compress.rs:126-136 | the finished stream is a function of the whole input alone |
| `Lz4Stream.Encode` | native/src/boot/compress.rs:98-136 | the stream depends on the concatenation of the writes alone, apart from the magic numbers that empty writes at the start cause |
| `Lz4Stream.Decoder.Read` | native/src/boot/compress.rs:162-207 | one read delivers a prefix of what is left to decode, an end only at the end, an error only if decoding fails; a read into an empty buffer loses nothing |
| `Lz4Stream.ReadToEnd` | native/src/boot/compress.rs:162-207 | reads of any sizes, over a reader that may deliver as little as it likes at each call, give the decoding of the stream |
| `Lz4Stream.HeaderCountAppend` | native/src/boot/compress.rs:107-112 | every write made before any data puts out another magic number |
| `Lz4Stream.RoundTrip` | native/src/boot/compress.rs:63-207 | decoding what was encoded gives the input back if and only if the first write was not empty and an LG stream's length is not the magic number; without data, if and only if it was not one write of a legacy stream |
| `Lz4Stream.StreamDecodes` | native/src/boot/compress.rs:63-207 | the same equivalence on streams, for any number of magic numbers at the start, the empty input included |
| `Lz4Stream.DecodeConcatenated` | native/src/boot/compress.rs:162-207 | an archive followed by anything decodes to its data and what follows, so two concatenated legacy archives to the concatenation; behind an archive without data another header ends the stream and an end is an error |
| `Lz4Stream.TwoHeadersStop` | native/src/boot/compress.rs:173-182 | two magic numbers in a row end the stream |
| `Lz4Stream.CheckFmtLg` | native/src/boot/bootimg.cpp:203-218 | the walk over block sizes computes the label of the walk's specification |
| `Lz4Stream.LabelsAreRight` | native/src/boot/bootimg.cpp:203-218 | an archive gets its own label if and only if it is a legacy one, or an LG one that is not empty and whose walk stays below 2^32 |
| `CpioFormat.Dump` | native/src/boot/cpio.rs:269-310 | the file holds one record per entry in the order of the names, then the trailer |
| `CpioFormat.WriteEntry` | native/src/boot/cpio.rs:274-300 | one entry is written as its record and the position stays aligned to four |
| `CpioFormat.Load` | native/src/boot/cpio.rs:223-261 | the reading loop computes the archive of its specification, error cases included |
| `CpioFormat.ParseRecord` | native/src/boot/cpio.rs:226-258 | reading at a written record gives name, metadata and data back and leads behind the record |
| `CpioFormat.LoadDump` | native/src/boot/cpio.rs:223-310 | reading a dump inside a larger file puts its entries in and goes on behind its trailer |
| `CpioFormat.LoadOfDump` | native/src/boot/cpio.rs:223-310 | loading the dump of an archive gives the archive back if and only if all names can be read back: without NUL, in UTF-8, and neither a dot name nor the trailer's |
| `CpioFormat.LoadedIsStorable` | native/src/boot/cpio.rs:223-261 | whatever the data, loading puts in only names that can be read back |
| `CpioFormat.LoadOfTwoDumps` | native/src/boot/cpio.rs:223-310 | two dumps joined by any number of zero words load to the right-biased union |
| `CpioFormat.DumpThenLoad` | native/src/boot/cpio.rs:223-310 | the two methods one after the other give the archive back under the same condition |
| `CpioBackup.Backup` | native/src/boot/cpio.rs:597-694 | the sorted merge stores every entry that differs or is gone and lists every new name |
| `CpioBackup.Restore` | native/src/boot/cpio.rs:562-595 | restoring takes the stored entries out, removes the listed names and puts the entries back |
| `CpioBackup.ExtractBackups` | native/src/boot/cpio.rs:563-581 | the entries under the backup directory are split from the others and decompressed |
| `CpioBackup.RemoveListed` | native/src/boot/cpio.rs:587-591 | exactly the listed names, as `rm` normalises them, are removed |
| `CpioBackup.RestoreUndoesBackup` | native/src/boot/cpio.rs:562-694 | restore after backup, compressed or not, gives the original's names and data, with full metadata for every entry that was backed up |
| `CpioBackup.RestoreIsExact` | native/src/boot/cpio.rs:562-694 | it gives the original's names and data if and only if new names can be removed, every backup name stands for its entry alone, and something was recorded or the original is empty; without compression, the names that do not are the two special ones and those of entries that look compressed |
| `CpioBackup.UnchangedIsLost` | native/src/boot/cpio.rs:583-586 | backing up an archive that was not changed and restoring it gives the empty archive |
| `CpioBackup.BackupThenRestore` | native/src/boot/cpio.rs:562-694 | the two commands one after the other, with `-n` or without, on any two archives, with the same equivalence |
| `CpioBackup.NormPathTwice` | native/src/boot/cpio.rs:843-849 | normalising a normalised path changes nothing |
| `PolicyLexer.ExtractToken` | native/src/sepolicy/statement.rs:308-362 | the recursive tokenizer equals a left-to-right lexer that cuts at every brace and comma and classifies each piece, on every string |
| `PolicyLexer.ExtractAround` | native/src/sepolicy/statement.rs:330-344 | splitting at the first brace, closing brace or comma |
| `PolicyLexer.LexAt` | native/src/sepolicy/statement.rs:330-344 | a brace or comma is a cut whatever stands on its two sides |
| `PolicyLexer.TokenizeStatement` | native/src/sepolicy/statement.rs:364-370 | tokenizing a statement is one scan of its text |
| `PolicyLexer.WordsScan` | native/src/sepolicy/statement.rs:364-370 | splitting at blanks and cutting each word is that one scan |
| `PolicyLexer.BlanksDoNotMatter` | native/src/sepolicy/statement.rs:308-370 | blanks before or after a brace or comma never change the tokens |
| `PolicyParser.Tokens.ParseTerm` | native/src/sepolicy/statement.rs:162-179 | a name or a braced list is read as the grammar says, and refused otherwise |
| `PolicyParser.Tokens.ParseSterm` | native/src/sepolicy/statement.rs:187-209 | a star anywhere in a braced list empties it |
| `PolicyParser.Tokens.ParseXperm` | native/src/sepolicy/statement.rs:218-239 | one number or a range of two |
| `PolicyParser.Tokens.ParseXperms` | native/src/sepolicy/statement.rs:247-297 | the four forms of extended permissions, with the reset flag of each |
| `PolicyParser.Tokens.ParseXpermList` | native/src/sepolicy/statement.rs:261-273 | a braced list of ranges holds at least one |
| `PolicyParser.Tokens.ParseIds` | native/src/sepolicy/statement.rs:151-156 | a fixed number of names, or a refusal |
| `PolicyParser.Tokens.ParseStatement` | native/src/sepolicy/statement.rs:390-581 | the statement the tokens denote, or the error kind of its verb |
| `PolicyText.RoundTrip` | native/src/sepolicy/statement.rs:150-581 | printing any well-formed statement of the sixteen kinds, then tokenizing and parsing it, gives the statement back |
| `PolicyText.Accepted` | native/src/sepolicy/statement.rs:150-581 | every statement that some text denotes is well formed, and its printed form denotes it too |
| `PolicyText.CommaIsRefused` | native/src/sepolicy/statement.rs:150-370 | no text with a comma is accepted |
| `PolicyText.PrintedTokens` | native/src/sepolicy/statement.rs:308-370 | the tokens of a printed statement |
| `PolicyText.ParsedTokens` | native/src/sepolicy/statement.rs:390-581 | those tokens parse to the statement |
| `PolicyText.HexReadsBack` | native/src/sepolicy/statement.rs:211-214 | a printed 16-bit number is read back |
| `PolicyText.ParseLine` | native/src/sepolicy/statement.rs:606-620 | comments and empty lines are skipped; for any other line the result is that of its text, never the help message, and a statement is well formed |
| `PolicyText.PrintThenRead` | native/src/sepolicy/statement.rs:606-620 | a printed statement, read as a line of a rule file, is that statement |
| `AvTab.Table.SearchNode` | native/src/sepolicy/sepolicy.cpp:153-174 | finds a node of the key if there is one |
| `AvTab.Table.RemoveNode` | native/src/sepolicy/sepolicy.cpp:114-140 | removes exactly the node |
| `AvTab.Table.GetNode` | native/src/sepolicy/sepolicy.cpp:184-190 | the node of a key with the word it stands for, made if it was missing; keys stay unique |
| `AvTab.Table.Change` | native/src/sepolicy/sepolicy.cpp:219-241 | one key is changed as the rule says, no other key and no extended permission is; the key keeps no redundant node and no redundant node is new |
| `RuleTable.Policy.AddRule` | native/src/sepolicy/sepolicy.cpp:192-242 | exactly the keys of the product of sources, targets and classes are changed, and none of them keeps a redundant node; wildcards are all types for rules that strip and all attributes for others |
| `RuleTable.Policy.AddNamedRule` | native/src/sepolicy/sepolicy.cpp:244-291 | a rule acts if and only if its names are known; then it sets or clears its bit in every key it touches |
| `RuleTable.Policy.LooksUp` | native/src/sepolicy/sepolicy.cpp:249-288 | the checks on names, in their order |
| `RuleTable.ExpandIsProduct` | native/src/sepolicy/api.cpp:30-57 | `expand` enumerates exactly the product of the lists, with a wildcard for an empty one |
| `RuleTable.StatementIsPointwise` | native/src/sepolicy/api.cpp:59-85 | a statement sets or clears exactly the bits its product reaches, whatever the order of the lists |
| `RuleTable.Policy.Run` | native/src/sepolicy/api.cpp:59-85 | running a statement acts on the table as the list of its rules: for each bit the last rule that touches it decides |
| `RuleTable.Policy.RunAll` | native/src/sepolicy/api.cpp:59-85 | so does any run of statements; a redundant node stored afterwards was there before and no rule touched its key |
| `RuleTable.DenyForAll` | native/src/sepolicy/sepolicy.cpp:192-242 | `deny * * c p` leaves no pair of types granted p, not even through attributes |
| `RuleTable.AllowForAll` | native/src/sepolicy/sepolicy.cpp:197-203 | `allow * t c p` grants p, besides what was granted, to exactly the types that have an attribute |
| `RuleTable.DenyOnePair` | native/src/sepolicy/sepolicy.cpp:219-241 | `deny s t c p` leaves the pair granted if and only if another pair of their types and attributes grants it |
| `RuleTable.TableGrants` | native/src/sepolicy/api.cpp:59-85 | the table after a statement grants what the statement's meaning grants |
| `XpermTable.Added` | native/src/sepolicy/sepolicy.cpp:362-380 | growing one bitmap adds exactly the range to the set of ioctls |
| `XpermTable.Put` | native/src/sepolicy/sepolicy.cpp:324-360 | one slot's bitmap is stored, in the node that is there or in a new one; at most one driver node and one function node per driver remain |
| `XpermTable.Add` | native/src/sepolicy/sepolicy.cpp:362-380 | a plain extended permission adds exactly its range, rounded to whole drivers when the ends differ in driver |
| `XpermTable.Reset` | native/src/sepolicy/sepolicy.cpp:334-406 | a reset one makes the set exactly the complement of its range, whatever was there |
| `XpermTable.DropFunctions` | native/src/sepolicy/sepolicy.cpp:334-343 | all function nodes of the key are removed |
| `XpermTable.ChangeXperm` | native/src/sepolicy/sepolicy.cpp:312-407 | one key changes as its extended permission says and no node of another key does |
| `XpermTable.XpermPolicy.AddXpermRule` | native/src/sepolicy/sepolicy.cpp:296-408 | exactly the keys of the product are changed; wildcards stand for attributes; nothing happens before the policy version that knows ioctls |
| `XpermTable.XpermPolicy.AddNamedXpermRule` | native/src/sepolicy/sepolicy.cpp:410-440 | a rule acts if and only if its names are known |
| `XpermTable.XpermPolicy.RunXperm` | native/src/sepolicy/api.cpp:151-170 | running a statement acts as the list of its rules, one after the other |
| `XpermTable.XpermStatementIsPointwise` | native/src/sepolicy/api.cpp:52-57 | a statement applies its list once to every key it reaches, however often it reaches it |
| `XpermTable.PlainListAdds` | native/src/sepolicy/sepolicy.cpp:362-380 | a plain list adds exactly the union of its ranges |
| `XpermTable.ResetListKeepsLast` | native/src/sepolicy/sepolicy.cpp:334-406 | a `~{...}` list leaves the complement of its last range |
| `XpermTable.ResetListIsComplement` | native/src/sepolicy/sepolicy.cpp:334-406 | it leaves the complement of the whole list if and only if the last range covers the others |
| `XpermTable.ResetListForgets` | native/src/sepolicy/sepolicy.cpp:334-343 | `~{ 0x1 0x2 }` permits 0x1 |
| `DenyList.Validate` | native/src/core/deny/utils.cpp:136-173 | the loops accept exactly the valid pairs of names |
| `DenyList.List.UpdateAppId` | native/src/core/deny/utils.cpp:67-80 | the index gains or loses the package; empty entries are not kept |
| `DenyList.IndexAddInverse` | native/src/core/deny/utils.cpp:67-80 | adding keeps the index the inverse of the package map |
| `DenyList.IndexRemoveInverse` | native/src/core/deny/utils.cpp:67-80 | so does removing |
| `DenyList.List.AddHideSet` | native/src/core/deny/utils.cpp:175-189 | tells whether the process is new, and adds it |
| `DenyList.List.ScanDenyApps` | native/src/core/deny/utils.cpp:191-222 | the index is rebuilt as the exact inverse; packages that are gone leave memory, and the database where the delete succeeds |
| `DenyList.List.EnsureData` | native/src/core/deny/utils.cpp:229-260 | loading does not change the list; afterwards memory and rows agree if the deletes succeed |
| `DenyList.List.AddList` | native/src/core/deny/utils.cpp:262-287 | answer and new list are those of adding to a plain set of pairs; the invariant is kept, and agreement with the database when its calls succeed |
| `DenyList.List.AddLocked` | native/src/core/deny/utils.cpp:262-280 | the part under the lock gives answer and list of a plain set of pairs and leaves the rows alone; a write remains exactly when the answer is Ok |
| `DenyList.List.RmList` | native/src/core/deny/utils.cpp:295-331 | the same for removing a process or a whole package |
| `DenyList.List.RmLocked` | native/src/core/deny/utils.cpp:295-322 | the same for the part of it under the lock |
| `DenyList.List.Flush` | native/src/core/deny/utils.cpp:324-330 | a write made after the lock is released changes the rows alone, or nothing when it fails |
| `DenyList.List.LsList` | native/src/core/deny/utils.cpp:339-361 | lists exactly the pairs, and rescanning changes nothing |
| `DenyList.List.IsDenyTarget` | native/src/core/deny/utils.cpp:418-442 | the indexed answer equals a plain scan of all pairs, prefix match for isolated processes included |
| `DenyList.List.Run` | native/src/core/deny/utils.cpp:191-442 | any run of operations gives the answers and the list of a plain set of pairs, keeps the index the exact inverse and memory equal to the rows |
| `DenyList.List.RunThreads` | native/src/core/deny/utils.cpp:262-442 | any interleaving of locked parts and database writes, each of which may fail, gives list, rows and pending writes of the state machine over both |
| `DenyList.WriteFollowsChange` | native/src/core/deny/utils.cpp:262-331 | an add or remove that answers Ok changes the list as its write changes the rows |
| `DenyList.RunIsAccounted` | native/src/core/deny/utils.cpp:262-331 | after every interleaving the list is what the changes make of the start, the rows are what the successful writes make of it, and the changes are the writes made, failed and pending |
| `DenyList.RowsAgreeIff` | native/src/core/deny/utils.cpp:262-331 | once no write is pending, rows and list are equal if and only if, row by row, the last change is of the kind of the last successful write, or of what was stored at first where none succeeded |
| `DenyList.InOrderAgrees` | native/src/core/deny/utils.cpp:262-331 | writes that succeed in the order of the changes leave the rows equal to the list |
| `DenyList.FailedInsertIsMissing` | native/src/core/deny/utils.cpp:282-286 | for every new pair: an add whose write fails leaves a pair in the list that the rows do not have |
| `DenyList.LateInsertLeavesRow` | native/src/core/deny/utils.cpp:282-330 | for every new pair: an add and a later remove both answer Ok, and writes in the other order leave a row the list does not have |
| `PatternFilter.MatchPatterns` | native/src/boot/patch.rs:4-35 | the macro's matcher: optional comma, first pattern of the list, a value up to its end |
| `PatternFilter.MatchProgress` | native/src/boot/patch.rs:4-35 | every match makes progress |
| `PatternFilter.RemovePattern` | native/src/boot/patch.rs:37-62 | the buffer ends up as the left-to-right deletion over the original bytes followed by zeros, and the size returned is the number of kept bytes |
| `PatternFilter.UnchangedIff` | native/src/boot/patch.rs:37-62 | nothing changes if and only if nothing matches anywhere |
| `PatternFilter.OnePassIff` | native/src/boot/patch.rs:37-62 | one pass leaves nothing that matches, and a second pass changes nothing, if and only if at no match of the pass the bytes kept on its two sides form a pattern |
| `PatternFilter.WholeOptionsSettle` | native/src/boot/patch.rs:37-62 | if every match ends with the bytes or at a byte that ends a value, one pass leaves nothing that matches |
| `PatternFilter.RemovalCanExpose` | native/src/boot/patch.rs:64-80 | the verity filter turns `avavbb` into `avb`, which it would match |
| `PatternFilter.PatchVerity` | native/src/boot/patch.rs:64-80 | the verity filter, with the exact condition for its result to hold no pattern |
| `PatternFilter.PatchEncryption` | native/src/boot/patch.rs:82-88 | the encryption filter, with the same |
| `BootHeader.AlignTo` | native/src/boot/bootimg.hpp:409-418 | the smallest multiple of the page size that is not smaller |
| `BootHeader.FieldsApart` | native/src/boot/bootimg.hpp:206-405 | no two size fields of a header version overlap |
| `BootHeader.SetSizesReads` | native/src/boot/bootimg.hpp:526-660 | a size that was set is read back, whatever other sizes are set |
| `BootHeader.NewRawSize` | native/src/boot/bootimg.cpp:831-875 | the patched header has the new sizes, for every version and block |
| `BootHeader.NewRawKind` | native/src/boot/bootimg.cpp:222-263 | what decides the version, and the page size, survives the patch if an extra block does not look like a version |
| `BootLayout.BlocksInOrder` | native/src/boot/bootimg.cpp:327-367 | blocks start on pages, in order, and do not overlap |
| `BootLayout.LaidBlock` | native/src/boot/bootimg.cpp:565-770 | a block written behind others and padding is found where the layout says |
| `BootImage.ParseImage` | native/src/boot/bootimg.cpp:339-371 | the parse is that of the layout; it fails exactly when the blocks do not fit the mapping |
| `BootImage.GetBlocks` | native/src/boot/bootimg.cpp:333-367 | the nine checks fail exactly when the end of the last block is past the mapping |
| `RamdiskTable.WriteParts` | native/src/boot/bootimg.cpp:677-702 | the loop over the table writes the parts one after the other and rewrites place and size of each |
| `RamdiskTable.RewrittenTiles` | native/src/boot/bootimg.cpp:677-702 | whatever the files hold, the rewritten entries tile the section that was written |
| `RamdiskTable.RewrittenKeeps` | native/src/boot/bootimg.cpp:677-702 | nothing else of an entry changes |
| `RamdiskTable.SameTable` | native/src/boot/bootimg.cpp:677-702 | writing the parts gives block and table back if and only if the entries tile the block and each file holds what the block has at every entry of its name |
| `BootRepack.Unpack` | native/src/boot/bootimg.cpp:488-563 | a file for every part that is not empty and for every table entry, with its bytes |
| `BootRepack.WriteBlock` | native/src/boot/bootimg.cpp:618-770 | each block is written and aligned, and its size goes to the header, kept or reset as the code does |
| `BootRepack.Repack` | native/src/boot/bootimg.cpp:570-874 | the image is the patched header over head, aligned blocks, vendor mark and padding to the old size |
| `BootRepack.ConsistentReparses` | native/src/boot/bootimg.cpp:570-874 | any set of files whose blocks have size fields that agree is found again: same header version, same sizes, same bytes |
| `BootRepack.ReparsedIsConsistent` | native/src/boot/bootimg.cpp:585-592 | and no other set of files is |
| `BootRepack.RemovedExtraIsInconsistent` | native/src/boot/bootimg.cpp:585-592 | without its file, the extra block keeps its size in the header and the image is not found again |
| `BootRepack.UnpackedIsConsistent` | native/src/boot/bootimg.cpp:488-702 | files just unpacked agree with the header, and give the nine blocks back if and only if the parts of a table tile the ramdisk block and parts of one name have the same bytes |
| `BootRepack.SharedNameLosesPart` | native/src/boot/bootimg.cpp:509-527 | two entries of one name: only the second part is left in the file |
| `BootRepack.UnpackThenRepack` | native/src/boot/bootimg.cpp:488-874 | `unpack -n` then `repack -n` gives an image, no shorter, that parses to the same nine sizes and blocks if and only if the same holds of the table |
| `ZImageParse.ParseZImage` | native/src/boot/zimage.rs:107-304 | a parse splits the input into three non-empty pieces that concatenate to it, the second of the first known format behind the header and ending where the searches say; each table offset is the first place with such a table, or zero if there is none; the parse fails if and only if there is no such split |
| `ZImageParse.FindPiggy` | native/src/boot/zimage.rs:123-138 | the payload starts at the first known format, or there is none |
| `ZImageParse.FindLc0` | native/src/boot/zimage.rs:143-172 | the first aligned place with a table of pointers to itself and behind the head, or none |
| `ZImageParse.FindInTable` | native/src/boot/zimage.rs:185-218 | the first entry of the tagged table that names a valid end; the walk ends |
| `ZImageParse.FindEnd` | native/src/boot/zimage.rs:183-253 | the end is the one the tagged table names, else the first the offset table names, else one of the last sixteen words', else that of the image |
| `ZImageParse.ScanGot` | native/src/boot/zimage.rs:227-235 | the first end in range that a word of the offset table names |
| `ZImageParse.ScanTail` | native/src/boot/zimage.rs:237-252 | the first, from the end, that one of the last sixteen words names |
| `ZImage.BuildTail` | native/src/boot/zimage.rs:429-467 | padding, then the tail with every word behind the old padding relocated |
| `ZImage.TailWordsRelocated` | native/src/boot/zimage.rs:452-464 | when the pointer table was found, each word is relocated on its own by the one rule |
| `ZImage.TailLength` | native/src/boot/zimage.rs:429-450 | the image's length changes by exactly the shift of the offset table, which starts at an aligned address, if and only if the tail is at least as long as the old padding; where the tail is not rebuilt, if and only if the padding stays |
| `ZImage.AddressFollows` | native/src/boot/zimage.rs:450-464 | an address in or behind the offset table names the same place before and after if and only if it stays below 2^32 and is not taken for the end of the payload with new padding behind it |
| `ZImage.TableStartIsMisplaced` | native/src/boot/zimage.rs:456-458 | when the old payload ends on a word and the new one does not, the address of the table's own start is sent to the end of the payload, before the padding |
| `ZImage.RelocateUndone` | native/src/boot/zimage.rs:452-464 | going back to the old size undoes the relocation of a word if and only if the word is not taken for another kind |
| `ZImage.AmbiguousWord` | native/src/boot/zimage.rs:450-464 | a word whose relocation is not undone, whenever the old and the new padding differ |
| `ZImage.BuildHead` | native/src/boot/zimage.rs:306-362 | the head keeps its length and has the end of the image and the found tables patched, in order |
| `ZImage.ApplyReads` | native/src/boot/zimage.rs:321-362 | patched words that do not overlap are each patched once, by their rule |
| `ZImage.ApplyKeeps` | native/src/boot/zimage.rs:321-362 | words away from them stay |
| `ZImageParse.Rebuild` | native/src/boot/zimage.rs:306-467 | head, payload and tail together grow or shrink by the shift, under the same condition; a payload of the old size leaves the rest as it was |

## Left out

- Overlay.Mounts.Commit: requires that a module directory is not put on a path that is itself a real link, which only a root could be, since below a root such a directory is rebuilt by its parent.
- Overlay.Mounts.CommitTmpfs: what a real link leads to, and what a module holds at a path, are parameters that do not change while the tree is committed.
- Overlay.Mounts.BindMount: does not model file attributes, SELinux labels, mount propagation and I/O errors of the mirror; a failed mount changes nothing.
- Collect.CollectModules: does not model reading directories that change meanwhile and `system.prop`, nor the injection of Magisk's own files and the split into partitions.
- ThreadPool.Pool.SubmitTask: does not model overflow of the 32-bit counters, failing thread creation, and the exit of a thread whose task forked and became the main thread.
- Lz4Stream.RoundTrip: does not model I/O errors; the block codec is a parameter whose decompression undoes its compression and whose output is bounded, as the library promises.
- Lz4Stream.Encoder.WriteAll: requires a total below 2^32, where the 32-bit counter does not overflow; beyond, the result depends on the build. The same holds for Lz4Stream.Encoder.Finish, Lz4Stream.Encode, Lz4Stream.StreamDecodes and Lz4Stream.RoundTrip.
- Lz4Stream.Encoder.Finish: see Lz4Stream.Encoder.WriteAll.
- Lz4Stream.Encode: see Lz4Stream.Encoder.WriteAll.
- Lz4Stream.StreamDecodes: see Lz4Stream.Encoder.WriteAll.
- Lz4Stream.CheckFmtLg: answers None where the 32-bit offset wraps around; the walk then goes on from an earlier place and need not end.
- Chunker.Chunker.AddData: does not model `set_chunk_size`, which nothing modelled here calls.
- CpioFormat.Load: does not model reading the archive from a file; the data is a parameter.
- CpioBackup.Backup: does not model loading the original archive from a path; the xz codec is a parameter whose decompression undoes its compression.
- PolicyParser.Tokens.ParseStatement: does not model the text of error messages.
- AvTab.Table.SearchNode: does not model the hash buckets and the linked lists of libsepol; one list of nodes stands for the table and a position in it for a node pointer, so pointer surgery and aliasing are not captured.
- AvTab.Table.RemoveNode: removes a position of that list; see AvTab.Table.SearchNode.
- AvTab.Table.GetNode: requires that the table handed in has at most one node for a key, and one for a key and slot with extended permissions, as libsepol's insertion sees to. The same holds for AvTab.Table.Change, RuleTable.Policy.AddRule, RuleTable.Policy.AddNamedRule, RuleTable.Policy.Run and RuleTable.Policy.RunAll, and for the methods of XpermTable.
- AvTab.Table.Change: see AvTab.Table.GetNode.
- RuleTable.Policy.AddRule: see AvTab.Table.GetNode.
- RuleTable.Policy.Run: see AvTab.Table.GetNode.
- RuleTable.Policy.RunAll: see AvTab.Table.GetNode.
- XpermTable.Put: see AvTab.Table.GetNode.
- XpermTable.Add: see AvTab.Table.GetNode.
- XpermTable.Reset: see AvTab.Table.GetNode.
- XpermTable.DropFunctions: see AvTab.Table.GetNode.
- XpermTable.XpermPolicy.AddXpermRule: see AvTab.Table.GetNode.
- XpermTable.XpermPolicy.AddNamedXpermRule: see AvTab.Table.GetNode.
- XpermTable.XpermPolicy.RunXperm: see AvTab.Table.GetNode.
- RuleTable.Policy.AddNamedRule: does not model the truncation of names longer than 255 bytes, and symbol tables are searched in a list.
- XpermTable.ChangeXperm: identifies a node by its key and slot instead of its address; the 257-element array of pointers becomes a search.
- DenyList.List.Run: is about calls one after the other; for threads see DenyList.List.RunThreads. Neither models a mapping from packages to app ids that changes between calls, nor killing processes.
- DenyList.List.AddList: does not model the SQL text; a write adds or removes rows, or fails.
- BootImage.ParseImage: does not model images that start behind another header or wrapping (CHROMEOS, DHTB, BLOB, NOOKHD, ACCLAIM, AMONET), nor the scan for a later magic; a page size of zero or above 2^31-1, on which the code divides by zero or by a negative number, is refused.
- BootRepack.Repack: does not model MTK headers and zImage kernels inside an image (excluded by `Plain`), the header file, compression, AVB structures and the signature of AVB 1.0; the checksum is a parameter.
- BootRepack.Unpack: requires a table whose entries have the known size, on which the program exits otherwise, and whose parts lie in the ramdisk block.
- BootRepack.ConsistentReparses: excludes images whose page is smaller than their header (`HeaderFits`; vendor headers always fit). The first block starts one page into the image, so the header that `repack` copies in at the end overwrites the beginning of the blocks there. BootRepack.Repack requires the same.
- BootRepack.ReparsedIsConsistent: see BootRepack.ConsistentReparses.
- BootRepack.UnpackThenRepack: see BootRepack.ConsistentReparses. It says nothing of a table with bytes behind its last entry, which are not written again, and its equivalence is for parts that come to less than 4 GiB together.
- BootRepack.UnpackedIsConsistent: is about the same tables.
- RamdiskTable.WriteParts: takes at most 32 bytes for a name; the code reads a name of 32 bytes without NUL on into the next field.
- ZImage.BuildTail: requires addresses that fit 32 bits, as an image on a 32-bit machine has.
- ZImageParse.Rebuild: lacks the literal patches that ZImage.BuildHead lacks.
- ZImage.BuildHead: does not model the last step of `new_head`, which looks for pairs of ARM instructions that compute the address of the offset table and patches their literals.
- ZImageParse.ParseZImage: is stated for images below 4 GiB on a machine with 64-bit sizes.
- ZImageParse.FindLc0: see ZImageParse.ParseZImage.
- ZImageParse.FindEnd: see ZImageParse.ParseZImage.
- PatternFilter.PatchVerity: does not model the message printed for a removed pattern.
- The rest of the repository: the daemon's sockets and requests, su, resetprop, Zygisk, the installer and the app, policy loading and saving, hexpatch, dtb and payload tools, certificates and signing, command lines. They are system calls, libraries or user interface, or would only add easy members.
