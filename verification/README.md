# Verified models of the redis and logdirect cores

This project models, in Dafny, the parts of the repository where state, order and
arithmetic are hard to get right, and proves what each part is for:

- the append-only file (`redis/src/aof.c`): the record format, the loader, the feed, the flush,
  the manifest and its text form, and the background rewrite, down to every instant at which
  the process may crash;
- the background fsync worker (`redis/src/bio.c`);
- ACL command rules (`redis/src/acl.c`);
- the bit operations on strings (`redis/src/bitops.c`);
- clients blocked on keys (`redis/src/blocked.c`);
- CONFIG REWRITE (`redis/src/config.c`) and the doubly linked list (`redis/src/adlist.c`);
- the RDMA persist handshake of `logdirect/remotepath/path.h`.

`dafny verify dfyconfig.toml` checks all of it. Each module is one file:

| module | what it holds |
|---|---|
| `Bytes`, `Collections`, `SdsSplit` | bytes and decimal numbers; shared small definitions; quoting and splitting of lines |
| `Resp` | the `*N` / `$len` record format and its reader |
| `AofLoad`, `AofLoadErrors` | the loader on one file and on the files of a manifest; recovery from any cut; what makes a load fail |
| `AofFeed` | SELECT insertion and the split of the stream into INCR files |
| `AofFlush` | short writes, write errors, undoing a partial write |
| `AofManifest`, `AofManifestText` | the manifest's lists and names; its text form and back |
| `AofRewrite` | the background rewrite with a crash after any system call |
| `AofObjects` | batched RPUSH / SADD / ZADD / HMSET output |
| `BioFsync` | the job queue and the published fsync offset |
| `Acl` | the command table, rules, what replaying them means, dropping redundant ones, command ids |
| `AclText`, `AclScan` | the kept rules as one text: the scan that cuts it, on rules and in the C buffer |
| `AclHistory`, `AclArguments` | whole histories of operations and the text shown for them; first arguments read back |
| `AclSelector` | the selector changed in place |
| `Bits`, `Bitpos`, `Bitcount`, `Bitop`, `Bitfield` | bitwise arithmetic and the four commands |
| `Blocked`, `BlockedRuns` | the two-way client/key index, counters and queues; whole runs of events |
| `ConfigRewrite` | line reuse in the configuration file |
| `LinkedList` | the pointer list |
| `RemotePersist` | client, server and network as interleaved steps |

Objects that the source updates in place are classes here, and its loops are methods with
invariants, each proved against a function of the inputs or of the old state. The two protocols
between independent parties (fsync worker, RDMA handshake) are state machines whose steps are
taken in any order.

## Where the code does not do what one would hope

Each of these is a lemma with a concrete witness next to the exact condition.

- A log cut in the middle of a command inside a transaction is recovered, but the file keeps the
  dangling MULTI, and commands appended later are swallowed: `AofLoad.AppendableIffClean`,
  `AofLoad.TransactionCutInExec`.
- The INCR file opened by a rewrite has no O_APPEND (`redis/src/aof.c:808`); a partial write undone
  by ftruncate leaves the offset past the end, and the next flush writes a hole:
  `AofFlush.FlushConserves`, `AofFlush.HoleWithoutAppend`.
- A manifest whose file name has a single quote and needs no other escaping cannot be loaded again:
  `AofManifestText.ManifestRoundTrip`, `AofManifestText.SingleQuoteBreaksManifest`,
  `AofManifestText.SingleQuoteWitness`.
- After dropping an ACL rule the scan of the kept rules goes on where that rule used to end, in a text that has
  moved (`redis/src/acl.c:582-586`), and can cut the end off another rule. After `+get`, `+lcs|aget`, `+get` the
  kept text is `+lcs +get`; replaying it allows `lcs`, and showing the user stops the server
  (`redis/src/acl.c:773-781`): `AclHistory.DamagedRuleStops`. `AclText.LeftExact` says exactly when the scan leaves
  rules behind; `AclHistory.DescriptionSetsAgain` proves that the user can then be shown, and
  `AclHistory.TailFreeHistory` gives a condition on the rule texts alone.
- First arguments are kept unquoted. `AclArguments.ArgumentReadBackIffWord` says exactly which are read back: those
  without blank and quote characters. After the argument `a b` showing the user stops the server:
  `AclArguments.BlankArgumentStops`.
- BITFIELD SET with SAT on a signed field stores the maximum for an argument far below the range:
  `Bitfield.SignedSet`, `Bitfield.SaturatesUpwards`.
- The first eight bytes of every record sent by `Client3` and `Client4` are replaced by the flag word:
  `RemotePersist.RecordKeepsTail`.
- That flag is the first word of the record, so a write that arrives in pieces can be stored with old words behind a
  new flag; the record is whole whenever the flag is seen if and only if the first word arrives last:
  `RemotePersist.WholeIffHeaderLast`, `RemotePersist.TornInAddressOrder`.
- `Server3` and `Server4` do not clear the first word before they poll it, unlike `logdirect/remotepath/path.h:79`
  and `logdirect/remotepath/path.h:167`; a client flag left there is taken for a record that nobody sent, and an end
  flag for a Close: `RemotePersist.StaleFlag`.

## Model

| member | source | states |
|---|---|---|
| `Bytes.ParseIntOfDigits` | redis/src/aof.c:1269-1292 | Decimal round trip: a printed number is read back whatever follows its digits. |
| `Resp.CatGenericCommand` | redis/src/aof.c:1269-1292 | The loop that formats a command appends exactly its `*N` header and N length-prefixed strings. |
| `Resp.ParseComplete` | redis/src/aof.c:1486-1536 | A record with any binary arguments is parsed back to those arguments, leaving exactly the bytes after it. |
| `Resp.ParseCut` | redis/src/aof.c:1486-1536 | Any non-empty proper prefix of a record is seen as an unexpected end of file, never as another command. |
| `AofLoad.ReadCommand` | redis/src/aof.c:1486-1536 | The argument loop computes the record parser, whose results on whole, cut and broken records the rows of `Resp` and `AofLoadErrors` state. |
| `AofLoad.LoadSingleFile` | redis/src/aof.c:1396-1647 | The loading loop with its two rewind offsets, transaction state and truncation branches computes the recursive loader: same commands executed, same status, same bytes left. |
| `AofLoad.LoadPrefix` | redis/src/aof.c:1470-1632 | For every byte prefix of a log of commands and MULTI/EXEC blocks: what runs, what is reported and which bytes stay. |
| `AofLoad.PrefixRecovery` | redis/src/aof.c:1470-1632 | Exactly the whole commands and whole transactions in the prefix are executed; the file left holds exactly these if and only if the cut is clean. |
| `AofLoad.ReloadIsSame` | redis/src/aof.c:1597-1632 | Loading the truncated file again executes the same commands. |
| `AofLoad.AppendAfterRecovery` | redis/src/aof.c:1597-1632 | After a clean cut, any log appended to what recovery left is executed in full by the next load. |
| `AofLoad.AppendToDanglingBlock` | redis/src/aof.c:1597-1632 | After any other cut, an appended command is not executed by the next load. |
| `AofLoad.AppendableIffClean` | redis/src/aof.c:1597-1632 | What recovery leaves can be appended to exactly after a clean cut. |
| `AofLoad.TransactionCutInExec` | redis/src/aof.c:1602-1632 | A transaction cut one byte before its end is not a clean cut. |
| `AofLoad.LoadAppendOnlyFiles` | redis/src/aof.c:1650-1774 | The loop over BASE and INCR files stops at the first failure and accepts a truncated file only in the last place. |
| `AofLoad.FilesRecovery` | redis/src/aof.c:1650-1774 | With the last file cut anywhere, all earlier files and the whole units of the last run; a cut inside a unit of an earlier file fails the load. |
| `AofLoadErrors.WithoutTruncation` | redis/src/aof.c:1602-1632 | For every file: a loader that may not truncate, or fails to, gives the same outcome as one that may, except that an unexpected end of file is a failure that leaves the file as it was. |
| `AofLoadErrors.PrefixWithoutTruncation` | redis/src/aof.c:1602-1632 | For every byte prefix of a log such a loader runs the whole units, fails exactly when the cut is inside a unit, and never changes the file. |
| `AofLoadErrors.LeftWhole` | redis/src/aof.c:1587-1640 | Only a load reported as truncated changes the file. |
| `AofLoadErrors.JunkFails` | redis/src/aof.c:1493-1494 | Behind any whole units, bytes that start neither a record nor an annotation fail the load after exactly these units, and the file stays. |
| `AofLoadErrors.CountBelowOneFails` | redis/src/aof.c:1496-1497 | The same for an argument count below one. |
| `AofLoadErrors.NulCountFails` | redis/src/aof.c:1495-1601 | A count that is a zero byte on a whole line is a failure and never repaired by truncation. |
| `AofLoadErrors.BrokenArgumentFails` | redis/src/aof.c:1508-1524 | Behind any good arguments of a record, one that does not start with a dollar sign fails the load; one of negative length aborts it. |
| `AofLoadErrors.UnknownCommandFails` | redis/src/aof.c:1539-1547 | A whole record of an unknown command fails the load whatever follows. |
| `AofLoadErrors.AnnotationSkipped` | redis/src/aof.c:1493 | An annotation line between two logs runs nothing, and both logs run in full. |
| `AofLoadErrors.LongAnnotationFails` | redis/src/aof.c:1486-1494 | An annotation longer than the line buffer is read on as a record: its 1024th byte must start one. |
| `AofFeed.FormatCommand` | redis/src/aof.c:1321-1360 | The text appended is a SELECT exactly when the database differs from the selected one, then the command. |
| `AofFeed.FeedKeeps` | redis/src/aof.c:1321-1360 | Feeding one command keeps the open file replayable into the right databases and the selected-database field truthful. |
| `AofFeed.FeedLoadRoundTrip` | redis/src/aof.c:1433-1536 | For every run of feeds split into INCR files anywhere, reading each file with a fresh client recovers exactly the commands fed to it, each in its database. |
| `AofFeed.AofStream.FeedCommand` | redis/src/aof.c:1321-1360 | The buffer grows by exactly that text and all files together stay the encoding of the run. |
| `AofFeed.AofStream.StartRewrite` | redis/src/aof.c:2427-2446 | Forgetting the selected database before switching files keeps every file self-contained, whether or not the switch succeeds. |
| `AofFeed.AofStream.RewriteDone` | redis/src/aof.c:2671 | The reset after a rewrite forces a SELECT before the next command and changes no file. |
| `AofFeed.AofStream.FilesReadBack` | redis/src/aof.c:1496-1536 | In every state every INCR file, the open one with its buffer, reads back as what was fed. |
| `AofFlush.AofWriter.AofWrite` | redis/src/aof.c:1036-1053 | The retry loop writes a prefix of the data in place and reports how much, for any pattern of short writes and errors. |
| `AofFlush.AofWriter.FlushAppendOnlyFile` | redis/src/aof.c:1074-1233 | Postponing, writing, undoing and keeping the rest of the buffer compute the flush function; the two size fields move together; the time since which the flush is postponed is recorded once and reset by a write. |
| `AofFlush.WaitsUnderTwoSeconds` | redis/src/aof.c:1098-1114 | Calls in a row wait for a running fsync if and only if each comes less than two seconds after the first. |
| `AofFlush.AttemptIs` | redis/src/aof.c:1036-1053 | Everything is written unless an error comes before enough was accepted; then exactly what was accepted before the first error. |
| `AofFlush.FlushWrites` | redis/src/aof.c:1149-1233 | The bytes that stay go from the front of the buffer to the end of the file, the size follows, and the status is good exactly when the buffer is empty. |
| `AofFlush.FlushConserves` | redis/src/aof.c:1149-1233 | File followed by buffer is unchanged and the recorded size is the file's length if and only if the offset was at the end or nothing of this flush stays. |
| `AofFlush.FlushAligned` | redis/src/aof.c:1149-1233 | The offset stays at the end of the file if and only if the descriptor appends or no partial write was undone. |
| `AofFlush.RunConserves` | redis/src/aof.c:1149-1233 | Over any run of feeds and flushes with any I/O results, file followed by buffer is exactly what was fed at every moment if and only if no flush writes beyond a gap. |
| `AofFlush.QuietFlushDrains` | redis/src/aof.c:1149-1233 | After any run whose descriptor is at the end of its file, one flush without an error leaves everything ever fed in the file and nothing in the buffer. |
| `AofFlush.HoleIffRetried` | redis/src/aof.c:1149-1233 | A gap is written if and only if the descriptor lacks O_APPEND and something is written after a partial write was undone. |
| `AofFlush.AppendWritesNoHole` | redis/src/aof.c:1149-1233 | A descriptor opened with O_APPEND never writes a hole. |
| `AofFlush.HoleWithoutAppend` | redis/src/aof.c:808-1203 | Without O_APPEND, a short write undone by ftruncate and then retried puts zeros before the data. |
| `AofManifest.NamesApart` | redis/src/aof.c:427-464 | File names differ whenever type or sequence number differ. |
| `AofManifest.NamesSayFormat` | redis/src/aof.c:427-464 | The extension says the encoding: rdb for a BASE with an RDB preamble, aof otherwise. |
| `AofManifest.NewIncrOk` | redis/src/aof.c:455-464 | A new INCR file keeps sequence numbers increasing and every file in one list only. |
| `AofManifest.NewBaseOk` | redis/src/aof.c:427-446 | A new BASE moves the old one to history and keeps the invariant. |
| `AofManifest.RewrittenOk` | redis/src/aof.c:492-522 | Moving the rewritten INCR files to history, keeping the open one, keeps the invariant. |
| `AofManifest.HistoryNotLive` | redis/src/aof.c:492-522 | No history name is the BASE's or an INCR's, so deleting history never removes a live file. |
| `AofManifest.ManifestState.Dup` | redis/src/aof.c:391-408 | The copy has the same lists and numbers and shares nothing with the original. |
| `AofManifest.ManifestState.NewBaseFileName` | redis/src/aof.c:427-446 | The method performs that update and returns the new name. |
| `AofManifest.ManifestState.NewIncrAofName` | redis/src/aof.c:455-464 | The method performs that update and returns the new name. |
| `AofManifest.ManifestState.MarkRewrittenIncrAofAsHistory` | redis/src/aof.c:492-522 | The backwards loop moves all INCR entries but the open one, in the order the source leaves them. |
| `AofManifestText.ManifestAsString` | redis/src/aof.c:192-220 | The three loops write BASE, HISTORY and INCR lines, one per entry. |
| `AofManifestText.LoadManifestFromFile` | redis/src/aof.c:256-382 | The line loop computes the recursive reader, with its buffer limit and every refusal. |
| `AofManifestText.ReadLine` | redis/src/aof.c:276-364 | A formatted line gives back its entry exactly when the name is a good one; otherwise it is refused or read with another name. |
| `AofManifestText.ManifestRoundTrip` | redis/src/aof.c:192-382 | Formatting and loading a non-empty manifest gives the same lists and the numbers they imply if and only if every line fits, and every name is non-empty, has no path separator and no zero byte, and has no single quote unless it is quoted for another reason. |
| `AofManifestText.SingleQuoteBreaksManifest` | redis/src/sds.c:1019-1030 | A name with a single quote that needs no quoting for another reason never loads back, whatever else is in the manifest. |
| `AofManifestText.SingleQuoteWitness` | redis/src/sds.c:1019-1030 | The manifest of one BASE file called x' is such a case. |
| `AofManifestText.LinesLoad` | redis/src/aof.c:337-364 | Lines of any entries that read back load, each entry in its list and in order, if and only if there is one BASE at most and every INCR number exceeds those before it. |
| `AofManifestText.CommentSkipped` | redis/src/aof.c:290-291 | A comment line adds nothing. |
| `AofManifestText.ExtraFields` | redis/src/aof.c:305-329 | Behind an entry's fields, pairs with unknown keys are ignored and a key without its value is refused. |
| `AofManifestText.HandWrittenLine` | redis/src/aof.c:295-361 | Blanks in front of a line and the case of its keys do not matter; a number of zero or an unknown type is refused. |
| `AofManifestText.OkIsWellKept` | redis/src/aof.c:427-522 | Every manifest the server keeps meets the conditions of the round trip. |
| `AofRewrite.Disk.Put` | redis/src/aof.c:789-851 | Writing a file that no restart would load leaves recovery as it was. |
| `AofRewrite.Disk.Rename` | redis/src/aof.c:2600-2660 | A rename that touches no live name leaves recovery as it was. |
| `AofRewrite.Disk.Unlink` | redis/src/aof.c:668-692 | Deleting a file that is not live leaves recovery as it was. |
| `AofRewrite.Disk.Append` | redis/src/aof.c:1149-1233 | Appending commands to the last INCR file extends what recovery gives by exactly these. |
| `AofRewrite.Disk.Install` | redis/src/aof.c:598-666 | A new manifest may be made durable only if it recovers the same dataset. |
| `AofRewrite.RecoverWithNewIncr` | redis/src/aof.c:789-851 | Adding an empty INCR file at the end of the manifest changes nothing that is recovered. |
| `AofRewrite.RecoverRewritten` | redis/src/aof.c:2568-2731 | After the switch only the new BASE and the INCR opened at the fork are loaded, and they give the whole dataset. |
| `AofRewrite.HistoryIsNotLive` | redis/src/aof.c:668-692 | The history that is deleted contains no file the durable manifest loads. |
| `AofRewrite.AofServer.OpenNewIncrForAppend` | redis/src/aof.c:789-851 | On success a new INCR is open, recorded and empty; on failure manifest and files stay as they were for recovery. |
| `AofRewrite.AofServer.RewriteBackground` | redis/src/aof.c:2427-2479 | The buffer is flushed and the child's snapshot is exactly the data at the moment the new INCR starts. |
| `AofRewrite.AofServer.SwitchToNewBase` | redis/src/aof.c:2568-2731 | Rename, persist or unlink may fail at any point and the server stays recoverable; on success the manifest is the rewritten one. |
| `AofRewrite.AofServer.DelHistoryFiles` | redis/src/aof.c:668-692 | Removes exactly the files of the history that can be unlinked, and empties the history; at any time, also while a rewrite child is at work, with any unlink or persist failing. |
| `AofRewrite.AofServer.RewriteDone` | redis/src/aof.c:2568-2731 | After a good rewrite with garbage collection on, the old BASE and every old INCR but the open one are gone from the disk unless they cannot be unlinked. |
| `AofRewrite.FirstStart` | redis/src/aof.c:713-767 | The first BASE and INCR recover the empty dataset, and so does a restart at any instant before the first manifest is durable. |
| `AofRewrite.NothingLost` | redis/src/aof.c:2427-2731 | What has reached the disk stays, and in a run without a crash written and buffered commands are exactly those executed, in order. |
| `AofRewrite.Step` | redis/src/aof.c:2427-2731 | Each event moves commands between buffer and disk, and starts or ends the rewrite, exactly as it stands for. |
| `AofRewrite.RunEvents` | redis/src/aof.c:2427-2731 | In every run of commands, flushes, rewrites, deletions of history, failures and crashes the disk and the buffer hold exactly the commands the events put there; at the instant after every system call the durable manifest loads to the dataset of the commands flushed until then, a prefix of all that reach the disk, growing from instant to instant. |
| `AofRewrite.CrashAt` | redis/src/aof.c:1650-1774 | Restarting from the disk of any such instant starts a server with the dataset of the commands flushed until then. |
| `AofObjects.CommandsBounded` | redis/src/aof.c:1796-2008 | Every emitted command is well formed and carries at most 64 items. |
| `AofObjects.ExecCommands` | redis/src/aof.c:1796-2008 | Replaying the batches of a value into a database without the key builds exactly that value. |
| `AofObjects.RewriteItems` | redis/src/aof.c:1808-1832 | The batching loop announces in each header exactly the number of strings that follow. |
| `AofObjects.RewriteListObject` | redis/src/aof.c:1796-1834 | The output reads back as RPUSH commands that rebuild the list in order. |
| `AofObjects.RewriteSetObject` | redis/src/aof.c:1838-1866 | The same for sets, in any iteration order. |
| `AofObjects.RewriteSortedSetObject` | redis/src/aof.c:1870-1946 | The same for sorted sets. |
| `AofObjects.RewriteHashObject` | redis/src/aof.c:1976-2008 | The same for hashes. |
| `BioFsync.BioWorker.SubmitJob` | redis/src/bio.c:152-160 | The job joins the tail and its type's counter stays the number of queued or running jobs. |
| `BioFsync.BioWorker.FinishJob` | redis/src/bio.c:228-299 | Only the head leaves, and the counter follows. |
| `BioFsync.BioWorker.PendingJobsOfType` | redis/src/bio.c:303-311 | Zero exactly when no job of the type is queued or running. |
| `BioFsync.SyncCovers` | redis/src/bio.c:228-299 | When the head job's file is synced, every command up to its offset is durable, in whatever file. |
| `BioFsync.StepKeeps` | redis/src/aof.c:833-929 | Every step of either thread keeps the invariant and never lowers the published offset. |
| `BioFsync.PublishedIsDurable` | redis/src/bio.c:228-299 | In every interleaving, all log commands up to a published offset are synced. |
| `BioFsync.PublishedMonotone` | redis/src/bio.c:228-299 | The published offset never decreases. |
| `BioFsync.FinishPublishes` | redis/src/bio.c:263-284 | A job leaves the list only once its offset is published. |
| `BioFsync.DrainedMeansPublished` | redis/src/bio.c:228-299 | In every interleaving, once the queue is drained the published offset is the last one asked for. |
| `BioFsync.DrainedMeansDurable` | redis/src/bio.c:228-299 | And every command up to it is synced. |
| `BioFsync.WorkerDrains` | redis/src/bio.c:228-299 | From any reachable state the worker alone empties the queue. |
| `BioFsync.StampsAreOffsets` | redis/src/aof.c:853-929 | In every interleaving the log holds exactly the commands fed, each stamped with the replication offset it reached. |
| `BioFsync.MainThreadNeverBlocks` | redis/src/aof.c:1084-1233 | The main thread never waits for the worker; it only asks for no second fsync while one is queued or running. |
| `BioFsync.FlushWritesAll` | redis/src/aof.c:1084-1233 | A flush has everything fed so far in the files. |
| `BioFsync.DrainedMeansSynced` | redis/src/bio.c:314-322 | Once the queue is drained every retired file is synced whole. |
| `Acl.NotReserved` | redis/src/acl.c:550-640 | No rule touches the reserved bit. |
| `Acl.ReservedBit` | redis/src/acl.c:731-784 | After any rules the reserved bit still tells which of "+@all" and "-@all" came first. |
| `Acl.PruneKeeps` | redis/src/acl.c:546-549 | Whichever covered rules are dropped, replay after the new rule gives the same bits and first arguments. |
| `Acl.TouchedIs` | redis/src/acl.c:606-640 | The bits a rule changes are those of the command with its subcommands, of the subcommand, or of all commands and subcommands of the category, by the table. |
| `Acl.ResetsIs` | redis/src/acl.c:606-640 | The commands whose first arguments a rule forgets, likewise. |
| `Acl.ResolvesIs` | redis/src/acl.c:1008-1178 | An operation is accepted exactly when it names something in the table. |
| `AclScan.Turn` | redis/src/acl.c:557-587 | One turn of the loop in the buffer, also behind the end of a text that has become shorter, is one step of the scan on the text. |
| `AclScan.RemoveCommandRule` | redis/src/acl.c:550-590 | The loop over the buffer computes the scan of the text, whatever stale bytes it meets. |
| `AclText.PrintInjective` | redis/src/acl.c:592-593 | Two lists of rules with the same kept text are the same list. |
| `AclText.MatchIsCover` | redis/src/acl.c:575-578 | The comparison of texts is exactly "the same rule, or an argument of the new command". |
| `AclText.WalkScans` | redis/src/acl.c:550-590 | The scan of a printed list is a walk over its rules that drops covered rules, passes others unseen, and may cut one. |
| `AclText.LeftIsText` | redis/src/acl.c:550-590 | If the walk cuts no rule, or only the end off an argument of the new command in the last place, the text left is the print of rules among which are all uncovered ones, in order. |
| `AclText.LeftExact` | redis/src/acl.c:550-590 | For texts without signs inside, that condition is also necessary: otherwise what is left is no print of such rules. |
| `AclText.JoinedBack` | redis/src/acl.c:580-586 | With a sign inside a text the condition is not necessary: a concrete list in which the end cut off a rule is put back by the rule joined to it. |
| `AclText.TailFreeLeaves` | redis/src/acl.c:550-590 | If no end of a kept rule's text reads like the new rule, only covered rules go and none is cut. |
| `AclText.UncoveredReplay` | redis/src/acl.c:546-549 | Two lists with the same uncovered rules give the same permissions once the new rule is added. |
| `AclHistory.ReservedTells` | redis/src/acl.c:527-530 | After any history, damaged or not, the reserved bit tells which of "+@all" and "-@all" came last. |
| `AclHistory.FlagMeansAll` | redis/src/acl.c:532-545 | After any history a selector with the "all commands" flag has every bit. |
| `AclHistory.KeptAgrees` | redis/src/acl.c:592-602 | As long as no scan has damaged a rule, the kept text prints rules whose replay is the bitmap and the first arguments of the history. |
| `AclHistory.TailFreeHistory` | redis/src/acl.c:550-590 | No scan of a history damages a rule if no end of one rule's text reads like another rule. |
| `AclHistory.WordsBack` | redis/src/acl.c:755-758 | A printed list is split into its rules again. |
| `AclHistory.DescriptionSetsAgain` | redis/src/acl.c:723-784 | After any history without a damaged rule the selector can be shown, and the text shown sets exactly the same bitmap and first arguments again. |
| `AclHistory.ScanCutsAnother` | redis/src/acl.c:580-586 | The concrete scan that cuts "+lcs\|aget" when "get" is added again. |
| `AclHistory.DamagedRuleStops` | redis/src/acl.c:773-781 | The three operations after which the kept text allows another command than the bitmap and showing the selector stops the server. |
| `SdsSplit.SplitLengths` | redis/src/sds.c:1082-1190 | No string split off a line is longer than the line, and one as long is the whole line, without blanks and quotes. |
| `SdsSplit.EscapedForms` | redis/src/sds.c:986-1010 | Quoted text is printable, and each character takes the form the format gives it: itself, a backslash with it or its letter, or two hexadecimal digits. |
| `SdsSplit.ReadTickedBack` | redis/src/sds.c:1134-1148 | Text between single quotes, its own escaped, is read back unless it ends in a backslash; without a blank or the end behind the closing quote the line is refused. |
| `AclArguments.NotReadBack` | redis/src/acl.c:731-784 | After any history without a damaged rule, a first argument with a blank or quote stops the server or is not set again by the text shown. |
| `AclArguments.ArgumentReadBackIffWord` | redis/src/acl.c:731-784 | For every accepted first argument, after any history without a damaged rule and with no kept rule ending like it: the selector can be shown and the text sets the same permissions if and only if the argument is a word. |
| `AclArguments.BlankArgumentStops` | redis/src/acl.c:755-762 | After allowing the first argument "a b" of a command, showing the selector stops the server. |
| `AclSelector.Selector.SetCommandBit` | redis/src/acl.c:536-545 | Sets one bit and lowers the "all commands" flag when it clears one; an id beyond the bitmap changes nothing. |
| `AclSelector.Selector.AddAllowedFirstArg` | redis/src/acl.c:916-942 | Adds the argument unless it is listed in any case. |
| `AclSelector.Selector.ChangeSelectorPerm` | redis/src/acl.c:606-619 | Changes the command's bit, all its subcommands' bits, the flag and the first arguments. |
| `AclSelector.Selector.SetBitsForCategory` | redis/src/acl.c:627-640 | The loops over commands and subcommands change the bits of the category's ids, which `Acl.TouchedIs` says are those of exactly its commands and subcommands. |
| `AclSelector.AsAsked` | redis/src/acl.c:606-640 | What a rule does to bits, flag and first arguments is what the table says it is about. |
| `AclSelector.Selector.UpdateCommandRules` | redis/src/acl.c:594-602 | The text becomes what the scan in place leaves, and the new rule. |
| `AclSelector.Selector.SetSelector` | redis/src/acl.c:1008-1178 | Accepted exactly when the rule names something in the table; then exactly the bits of the commands and subcommands it is about, by name or by category, take its sign, the first arguments and the flag follow, and all else stays; a refused one changes nothing; fields and text are those of the history. |
| `AclSelector.Selector.DescribeCommandRules` | redis/src/acl.c:731-784 | Replaying the kept text on a fresh selector stops the server exactly when a rule is refused or the bitmaps differ; after a history without a damaged rule the text is shown and sets the same permissions. |
| `AclSelector.EditHistory` | redis/src/acl.c:1008-1178 | The same for any history of operations applied one by one. |
| `Acl.CommandIds.GetCommandID` | redis/src/acl.c:1499-1524 | One id per name, distinct for distinct names, never the reserved one. |
| `Bitpos.RedisBitpos` | redis/src/bitops.c:101-186 | For every string and alignment, the least position of the bit; if none, -1 for a set bit and the end for a clear one. |
| `Bitpos.SkipWords` | redis/src/bitops.c:136-145 | Skipping whole words skips no match and stops at a word that holds one, or at the tail. |
| `Bitpos.SearchSpan` | redis/src/bitops.c:959-985 | Masked first byte, whole bytes and masked last byte together find the least match in the bit span. |
| `Bitpos.BitposCommand` | redis/src/bitops.c:877-1001 | For every range form, the least matching position in the normalised range, -1 if there is none, and the first position past the string for a clear bit with no explicit end. |
| `Bitpos.SpanSelects` | redis/src/bitops.c:930-937 | A bit lies between the normalised ends exactly when its byte, or the bit itself, lies in the range with negative indices counted from the back. |
| `Bitpos.IndexFromTheBack` | redis/src/bitops.c:931-932 | An index and the same index less the length name the same place. |
| `Bitcount.Step1` | redis/src/bitops.c:66-79 | Subtracting the masked half leaves the count of each pair of bits, for any width. |
| `Bitcount.Step2` | redis/src/bitops.c:66-79 | Adding neighbours leaves the count of each nibble. |
| `Bitcount.Step3` | redis/src/bitops.c:80-86 | Adding nibbles leaves the count of each byte, with no carry between lanes. |
| `Bitcount.AddLanes` | redis/src/bitops.c:80-86 | The multiplication adds four lanes of at most 56 each without losing a carry: at most 224. |
| `Bitcount.RedisPopcount` | redis/src/bitops.c:40-92 | For every length and alignment, the number of set bits of the string. |
| `Bitcount.EdgesRemoved` | redis/src/bitops.c:832-872 | Whole bytes minus the masked edges is the exact count of the bit range, also when both ends are in one byte. |
| `Bitcount.BitcountCommand` | redis/src/bitops.c:796-872 | For every range form, the number of set bits in the normalised range. |
| `Bitcount.CountSpanSelects` | redis/src/bitops.c:815-837 | The bits counted are those the range selects, and none when both indices are negative and cross. |
| `Bitop.ApplyWord` | redis/src/bitops.c:686-740 | An operation on machine words is the operation on their bytes. |
| `Bitop.FastPath` | redis/src/bitops.c:683-740 | The loop over blocks of four words gives, at each byte it covers, the fold over all sources. |
| `Bitop.SlowByte` | redis/src/bitops.c:743-770 | The byte loop with its early exit gives the same fold. |
| `Bitop.FoldBit` | redis/src/bitops.c:743-770 | Each bit of the fold is decided by how many sources have the bit: all, some, an odd number, or none. |
| `Bitop.BitopCommand` | redis/src/bitops.c:607-770 | The result is as long as the longest source and each bit is the operation on the zero-padded sources, with or without the fast path. |
| `Bitfield.SetUnsignedBitfield` | redis/src/bitops.c:209-222 | Exactly the bits of the field change, to the low bits of the value. |
| `Bitfield.GetUnsignedBitfield` | redis/src/bitops.c:229-241 | The big-endian number in the field. |
| `Bitfield.GetSignedBitfield` | redis/src/bitops.c:243-263 | Its two's complement reading, for widths 1 to 64. |
| `Bitfield.ReadBack` | redis/src/bitops.c:209-241 | Reading a field just written gives the value modulo 2^bits. |
| `Bitfield.UnsignedIncr` | redis/src/bitops.c:288-323 | Overflow is reported exactly when the true sum does not fit; WRAP gives the sum modulo 2^bits, SAT the nearest limit. |
| `Bitfield.UnsignedSet` | redis/src/bitops.c:288-323 | The same for SET, the argument being taken as a uint64_t. |
| `Bitfield.SignedIncr` | redis/src/bitops.c:325-378 | The same for signed fields of 1 to 64 bits, with every int64_t increment. |
| `Bitfield.SignedSet` | redis/src/bitops.c:325-378 | Range test and WRAP are right for every argument; SAT is right if and only if the width is 64 or the distance from the maximum fits an int64_t. |
| `Bitfield.SaturatesUpwards` | redis/src/bitops.c:333-345 | SET i8 to the least int64 with SAT stores 127. |
| `Bitfield.WrapMeans` | redis/src/bitops.c:355-377 | The wrapped value is in range and congruent to the true value. |
| `Bitfield.Execute` | redis/src/bitops.c:1136-1216 | SET and INCRBY end to end: reading back gives the number WRAP or SAT asks for, FAIL on overflow changes nothing and replies null, the reply is the old or the new number, and no other bit changes. |
| `Blocked.JoinKeeps` | redis/src/blocked.c:364-411 | Joining a key's list at the tail keeps the index consistent. |
| `Blocked.LeaveKeeps` | redis/src/blocked.c:508-541 | Leaving a list, deleting it when empty and adjusting the nokey count keeps the index consistent. |
| `Blocked.Server.BlockForKeys` | redis/src/blocked.c:364-411 | The client joins the tail of each named key's list once, even if keys repeat, and is stamped with the moment; nothing else changes. |
| `Blocked.Server.BlockElsewhere` | redis/src/blocked.c:590-624 | Blocking on something other than keys changes only the client and its counters. |
| `Blocked.Server.ReleaseBlockedEntry` | redis/src/blocked.c:508-541 | The client leaves one key's list, the others keeping their order. |
| `Blocked.Server.UnblockClientWaitingData` | redis/src/blocked.c:415-429 | The client leaves the lists of all its keys and no other list changes. |
| `Blocked.Server.UnblockClient` | redis/src/blocked.c:183-223 | The client waits for nothing, the counters follow, and it is queued for reprocessing at most once. |
| `Blocked.Server.UnblockWithReply` | redis/src/blocked.c:698-714 | A timeout or error also drops the pending command. |
| `Blocked.Server.WakeOnKey` | redis/src/blocked.c:629-649 | Waking on one key leaves the lists of all the client's keys and says whether its command runs again. |
| `Blocked.Server.AfterRerun` | redis/src/blocked.c:650-668 | A client whose command did not block again is queued, unless it is a module's. |
| `Blocked.Server.QueueClientForReprocessing` | redis/src/blocked.c:172-179 | A client is in the queue once, exactly while it is flagged. |
| `Blocked.Server.SignalKeyAsReady` | redis/src/blocked.c:448-494 | The key is queued once, exactly when the quick tests let it through. |
| `Blocked.Server.TakeReadyKeys` | redis/src/blocked.c:328-336 | The queue is detached whole and a new one starts. |
| `Blocked.Server.NextReadyKey` | redis/src/blocked.c:338-352 | The first key is served and may be signalled again. |
| `Blocked.Server.NextUnblocked` | redis/src/blocked.c:124-152 | The first client of the queue is taken and its flag cleared. |
| `Blocked.Server.ListedOnce` | redis/src/blocked.c:364-411 | A client is in a key's list exactly once if the key is in its own map and not at all otherwise; no list is empty. |
| `Blocked.Server.NokeyCounts` | redis/src/blocked.c:395-403 | The nokey count of a key is the number of its waiters that asked for it. |
| `Blocked.Server.WakeupNotLost` | redis/src/blocked.c:448-476 | If a waiter could be served by a signal, the quick returns do not drop it. |
| `Blocked.Server.FirstBlockedFirst` | redis/src/blocked.c:554-585 | Of two clients in a list the first has the strictly earlier moment of blocking. |
| `BlockedRuns.SignalTests` | redis/src/blocked.c:448-476 | The quick tests by counters and lists say exactly whether some client is blocked in a fitting way and some client waits for the key, or for its deletion. |
| `BlockedRuns.StepClient` | redis/src/blocked.c:88-714 | Each block, unblock, timeout, wake-up and rerun does to clients, lists and queues exactly what it stands for. |
| `BlockedRuns.StepQueue` | redis/src/blocked.c:124-494 | The same for signals and for taking from the queues. |
| `BlockedRuns.StampIsLast` | redis/src/blocked.c:364-411 | In any chain of events the moment noted for a client is that of its last blocking on keys. |
| `BlockedRuns.Run` | redis/src/blocked.c:88-714 | Every run of events, in any order, keeps index, counters and queues consistent and is the chain of their effects; of two waiters of a key the one served first has the earlier last blocking, and both blocked on that key. |
| `ConfigRewrite.RewriteState.ReadOldFile` | redis/src/config.c:1136-1201 | Each line keeps its number and its option; comments, blank lines and known options keep their text, and a line with an unknown option becomes a comment holding its text. |
| `ConfigRewrite.RewriteState.RewriteLine` | redis/src/config.c:1224-1257 | The first waiting line of the option is reused, else a line is appended if forced; every other line stays. |
| `ConfigRewrite.RewriteState.MarkAsProcessed` | redis/src/config.c:1100-1104 | The option is marked and no line changes. |
| `ConfigRewrite.RewriteState.RemoveOrphaned` | redis/src/config.c:1616-1641 | Exactly the unused lines of processed options are blanked. |
| `ConfigRewrite.UsedReuse` | redis/src/config.c:1238-1248 | Reusing the first waiting line puts it after all lines already written for the option. |
| `ConfigRewrite.ProcessedSurvive` | redis/src/config.c:1616-1641 | A processed option is left with exactly its emitted lines, in emission order. |
| `ConfigRewrite.UnprocessedSurvive` | redis/src/config.c:1616-1641 | Lines of options nobody processed are verbatim. |
| `ConfigRewrite.GetContent` | redis/src/config.c:1590-1607 | The loop joins the lines with each run of blank lines collapsed. |
| `ConfigRewrite.CollapsedKeeps` | redis/src/config.c:1590-1607 | Collapsing drops blank lines only and leaves no two in a row. |
| `ConfigRewrite.Rewrite` | redis/src/config.c:1739-1782 | The whole rewrite, for any old file and any sequence of option rewrites: every old comment and every line of an option nobody processed is in the new lines, same text and place; appended lines are processed options', after one signature exactly when the old file has none; each processed option has exactly the lines emitted for it, in order; and the content splits back into these lines up to blank ones. |
| `ConfigRewrite.LinesBack` | redis/src/config.c:1590-1607 | Joined lines without newlines split back into the same lines. |
| `LinkedList.List.LinkHead` | redis/src/adlist.c:103-114 | The node becomes the first of the sequence. |
| `LinkedList.List.LinkTail` | redis/src/adlist.c:136-147 | The node becomes the last. |
| `LinkedList.List.AddNodeHead` | redis/src/adlist.c:89-98 | A new node with the value becomes the first. |
| `LinkedList.List.AddNodeTail` | redis/src/adlist.c:122-131 | A new node with the value becomes the last. |
| `LinkedList.List.InsertNode` | redis/src/adlist.c:149-176 | A new node goes just before or after the given one. |
| `LinkedList.List.UnlinkNode` | redis/src/adlist.c:192-206 | Exactly the given node leaves the sequence, with its pointers cleared. |
| `LinkedList.List.Join` | redis/src/adlist.c:392-408 | The other list's sequence is appended and the other list is empty and valid. |
| `LinkedList.List.RotateTailToHead` | redis/src/adlist.c:361-373 | The last node becomes the first. |
| `LinkedList.List.RotateHeadToTail` | redis/src/adlist.c:376-388 | The first node becomes the last. |
| `LinkedList.List.Index` | redis/src/adlist.c:346-358 | The node at a non-negative index from the head or a negative one from the tail, null outside. |
| `LinkedList.List.SearchKey` | redis/src/adlist.c:321-339 | The first node with the value, null if there is none. |
| `LinkedList.List.Dup` | redis/src/adlist.c:276-310 | New nodes with the same values in the same order. |
| `LinkedList.Iter.Next` | redis/src/adlist.c:255-266 | Steps on before returning. |
| `LinkedList.List.VisitFromHead` | redis/src/adlist.c:255-266 | A walk that deletes any of the nodes just returned returns each original node exactly once, in order, and leaves the others. |
| `LinkedList.List.VisitFromTail` | redis/src/adlist.c:255-266 | The same from the tail. |
| `RemotePersist.RecordKeepsTail` | logdirect/remotepath/path.h:302-306 | What is stored keeps exactly the bytes after the first word, and equals the caller's buffer only if that word is the flag. |
| `RemotePersist.WholeIffHeaderLast` | logdirect/remotepath/path.h:302-306 | With the flag in the first word, a server that polls it finds the whole record whenever it sees the flag if and only if that word arrives last. |
| `RemotePersist.TornInAddressOrder` | logdirect/remotepath/path.h:253-267 | Words arriving in address order let the server store the flag with an old word. |
| `RemotePersist.StaleFlag` | logdirect/remotepath/path.h:253-267 | Before any call, after any number of steps, the server has persisted a record exactly when its first word was the client's flag and four steps are done, and has left its loop exactly when it was the end flag and two are done. |
| `RemotePersist.StepKeeps` | logdirect/remotepath/path.h:253-317 | Every step of client, server and network keeps the invariant. |
| `RemotePersist.PersistedInOrder` | logdirect/remotepath/path.h:253-317 | In every interleaving persisted minus acknowledged is 0 or 1, and the synced part of the file is exactly the persisted records in order. |
| `RemotePersist.WriteReturned` | logdirect/remotepath/path.h:302-427 | When a Write has returned the file holds exactly the records of all calls, all synced; with persistent memory, the slot holds the last record, flushed. |
| `RemotePersist.ExitAfterClose` | logdirect/remotepath/path.h:253-271 | The server leaves its loop only after Close, with every call persisted and acknowledged. |
| `RemotePersist.StepProgress` | logdirect/remotepath/path.h:253-317 | While a call is in progress every step changes nothing or brings the call nearer to its end, and one particular step does change something. |
| `RemotePersist.EveryCallReturns` | logdirect/remotepath/path.h:253-427 | Every call returns, and Close ends the server, within eighteen rounds in which everybody gets a turn, whatever else happens in them. |
| `RemotePersist.WriteCompletes` | logdirect/remotepath/path.h:253-427 | A Write asked of an idle client begins, and within any eighteen fair rounds it has returned with its record stored behind those of all calls before it, synced. |
| `RemotePersist.CloseCompletes` | logdirect/remotepath/path.h:253-427 | A Close asked of an idle client ends the server within any eighteen fair rounds. |
| `RemotePersist.OldFileKeepsEnd` | logdirect/remotepath/path.h:226-271 | The file is not emptied when opened: in every run an older, longer one keeps its end behind the records. |

## Left out

- Crashes are process crashes: page cache loss after power failure is not modelled, and `persistAofManifest` (write, rename, fsync) is one atomic step that succeeds or fails.
- `AofRewrite`: a flush moves whole commands; a crash inside a command or a transaction, and what the loader makes of the cut file, is the subject of `AofLoad` and not composed with these runs.
- The forced flush before a rewrite forks writes the whole buffer; AOF state is always on, with no switch on or off at run time.
- Log files have no RDB preamble, and no timestamp annotations are appended after a cut; a preamble is recognised and ends the model of the load.
- `Resp`: counts and lengths are read as the exact numbers their digits say, also beyond the ranges of int and long.
- `AofFeed`: the caller never feeds SELECT itself and database numbers are below 2^31, as the command propagation guarantees.
- `AofManifestText`: a negative sequence number, which the loader stores unchecked for BASE and HISTORY lines, ends the model of the load with its own outcome.
- `AofFlush`: the fsync step and the ALWAYS policy's exit on error are only an outcome; latency monitoring is not modelled.
- AofObjects.RewriteSortedSetObject: a score is the text the source prints for it; that the text reads back as the same double is not modelled.
- `AofObjects`: replay of RPUSH, SADD, ZADD and HMSET is the plain meaning on sequences, sets and maps; streams and module types are not modelled.
- `BioFsync`: appendfsync everysec with no I/O errors and AOF on; the lazy-free worker and the mutexes themselves are not modelled, each critical section being one step.
- AclText.LeftExact: the necessary direction is for rule texts with no plus or minus sign inside; a command such as `restore-asking` is covered by the sufficient direction only, because with signs cut and joined rules may by chance be rules again (`AclText.JoinedBack`).
- AclHistory.DescriptionSetsAgain: the condition is sufficient for a whole history, not necessary: a damaged text may by chance still mean the same permissions, or be cleared by a later "+@all".
- AclSelector.Selector.DescribeCommandRules: a kept text with a word about keys or channels, which only a first argument with a blank can bring in, ends the model with its own outcome.
- AclArguments.ArgumentReadBackIffWord: the command's own name is a word, as the names of the command table are.
- `Acl`: the command table is fixed and lists distinct names in lower case; passwords, keys and channels are not modelled; first arguments are a map, with no array allocation.
- `Bitfield`: parsing of types and offsets, growing the string and GET past its end are not modelled; overflow of the unused `minincr` is taken to wrap.
- `Bitpos`, `Bitcount`, `Bitop`: argument parsing and type errors are not modelled; unsigned long has eight bytes.
- `Blocked`: termination of serving one key, the timeout table, the lists of postponed clients and of clients waiting for acks, and freeing a client are not modelled; a command that runs again is any sequence of further steps.
- Blocked.Server.WakeOnKey: may be called for any waiter of any key, a superset of the type test of the source.
- `ConfigRewrite`: splitting the file into trimmed lines and parsing a line are parameters; emitted lines are not empty, as every option writer starts them with the option's name; the write of the new file is not modelled.
- `LinkedList`: the value of a node is fixed when it is made; dup, free and match callbacks and running out of memory are not modelled.
- `RemotePersist`: the protocol assumes that the server's first word holds no flag at the start, and a posted RDMA write is delivered at one instant (delivery word by word is treated apart from the protocol); `write` stores the whole record, as the source asserts; the first two paths of `path.h` (direct PMR and PMEM) have no handshake and are not modelled; a crash in the middle of filling the persistent slot is not modelled.
- Sockets, event loops, replication, cluster, RDB files, scripting, `logdirect/cpuaccess` and the benchmarks are not modelled: they carry data between the parts above and add no law of their own.
