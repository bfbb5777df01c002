# Verified models of Redis persistence, ACLs, bit operations and blocking, and of libco's scheduler

A Dafny project that models the hardest logic of the repository and proves what that logic is for.
Every algorithm that the source writes with loops, fields or pointers is a method or a class here,
proved against a small specification; the specifications then carry the theorems.

| area | files | main results |
|---|---|---|
| AOF text format and loader | `Decimal`, `Resp`, `Loader`, `LoaderErrors` | reading undoes writing for any binary arguments; every byte prefix of a log loads without a format error and executes exactly its complete commands outside an unfinished `MULTI`; when appending after such a load is safe; what is refused under which settings |
| AOF rewrite | `Keyspace`, `Rewrite`, `RewriteMeaning`, `KeyspaceOrders` | the rewritten log, printed, loaded and executed, rebuilds the dataset, for every collection size and iteration order; every dataset that commands can build has such an order |
| AOF protocol | `AofFeed`, `AofState`, `AofProtocol`, `AofServer`, `AofEndToEnd`, `AofLoading`, `AofSwitching`, `AofFailures` | over all runs of commands, short writes, rewrites, failures and crashes: files and buffer replay to the live dataset, a crash loses only a tail of commands; the same for the modelled commands with a child that compiles its dataset; a crash while AOF is being switched on loads what was there before; reachable states in which the conditions of these theorems fail |
| ACL rules | `Acl`, `AclMeaning`, `AclDescribe`, `AclSelector` | what every rule grants, denies or refuses, command by command; the rules emitted for a reachable selector rebuild its bitmap and all its decisions, so the panic at the end is unreachable |
| Bit operations | `BitNat`, `BitString`, `Popcount`, `Bitcount`, `Bitpos`, `Bitfield`, `BitfieldOps`, `Bitop` | word-at-a-time code equals the one-line bit-by-bit definition; what the documentation says of every result bit |
| Blocked clients | `Blocked`, `BlockedServer` | the index of waiters is a function of the clients; counters and queues agree; the drain loop ends |
| libco | `CoList`, `CoLoop`, `CoTimer`, `CoMutex` | intrusive lists; whatever the resumed coroutines do, a turn of the event loop processes every expired item, none as timed out before its time, and loses none; when a signalled item is resumed; the coroutine mutex is FIFO and hands over in every run |
| Containers and checksums | `Adlist`, `Crc16` | the doubly linked list refines sequences, also under deletion while iterating; the CRC table computes the polynomial remainder |

`Common` holds the option type and a fact about remainders that several areas share.

## What the model assumes

- Results of system calls (`write`, `ftruncate`, `open`, `rename`, `unlink`, `fork`), clocks, memory
  addresses and the effect of commands on keys are parameters or free choices, so the theorems hold for all
  of them. Writing the manifest is all or nothing.
- AOF text and keys are sequences of characters that stand for bytes. Bit operations work on
  numbers below 256. A word of the ACL bitmap is the set of its bit positions.
- Machine integers are unbounded unless the width matters; where it does (`atoi`, the 32-bit sums of the
  population count, all 64-bit arithmetic of bit fields) wrap-around is written out. Sequence
  numbers, sizes and the wheel's start index do not overflow.
- A rewrite begins with a flush that gets everything out, as the code intends; `AofFailures.RewriteRepeatsPending` says what happens otherwise.
- A coroutine resumed by the event loop calls `AddTimeout` and `co_cond_signal` any number of times, on any items, and
  then yields. The theorems about a turn hold for all such calls.
- `long` has 64 bits and machines are little-endian, as in the builds the word loops are written for.

## Findings

Where the obvious property is false of the code, one lemma shows a failing case and another gives the exact condition.

- A log cut inside a command of an unfinished `MULTI` is truncated to its last whole command, which leaves the
  `MULTI` open: commands appended later are swallowed on the next load. Appending is safe if and only if
  the cut is not of that kind (`Loader.ResumeAfterCut`, `Loader.ResumeFails`), which the surviving bytes
  show (`Loader.TornIsVisible`); a restarted server satisfies the protocol's invariant if and only if it is not
  (`AofProtocol.RestartIff`). Failing cases: `AofEndToEnd.TornLog`, and `AofFailures.TornReached` for every transaction.
- `openNewIncrAofForAppend` opens its file without append mode. A short write taken back by `ftruncate`
  then leaves the write position behind the end, and the next write puts zero bytes in between. Flushing keeps
  the write position right if and only if that does not happen (`AofProtocol.FlushConserves`,
  `AofProtocol.HoleIsWritten`). Recovery is not affected until something is written through the stale position;
  then a file that held whole commands does not load any more (`AofFailures.HoleUnloadable`). Failing case:
  `AofFailures.HoleReached`, for all commands.
- `rewriteAppendOnlyFileBackground` goes on when its flush does not get everything out. What is left in the buffer
  is both in the dataset the child saves and in the new INCR file, which a load after the rewrite replays from database 0 on
  (`AofFailures.RewriteLoads`). If complete commands are left over, the files recover the live dataset if and only if executing
  them again, those before the first `SELECT` on database 0, changes nothing (`AofFailures.RewriteRepeatsPending`,
  `AofFailures.RewriteRecoversIff`). Failing cases: `AofEndToEnd.RewriteDoublesPush`, where a push is executed twice, and
  `AofEndToEnd.RewriteMovesKey`, where a `SET` whose `SELECT` was elided ends up in the wrong database.
- libco's event loop loses a wakeup: an item that the wheel raised early because its wait is longer than the wheel, and that is signalled
  before the loop gets to it, goes back on the wheel instead of being resumed, although it has left its condition. A signalled item is
  resumed if and only if it was not raised early (`CoLoop.SignalArrives`, `CoLoop.SignalLost`). Failing case: `CoTimer.LostWakeup`.
- `TakeAllTimeout` cuts the number of ticks since the last turn to an `int`. If the cut number differs and does not cover the wheel,
  the sweep takes every due item if and only if none is due behind its end (`CoTimer.ShortSweep`). Unless the cut number is negative,
  the wheel then starts at the new tick, and is in step if and only if nothing is left on it and its index is not negative
  (`CoTimer.OutOfStep`, `CoTimer.Epoll.TakeAllTimeout`). Failing case: `CoTimer.ClockJump`, a jump of 2^32 milliseconds.
- `BITFIELD SET` of a signed field with `OVERFLOW SAT` stores the maximum for values so far below the range that
  the distance to the maximum leaves `int64_t`; it saturates to the nearest bound if and only if it does not
  (`BitfieldOps.SignedSetCheckIs`). Failing case: `BitfieldOps.SaturatesTheWrongWay`.
- The comment on the overflow checks promises -1 for underflow. The code returns -1 if and only if the sum
  underflows and the policy is not `WRAP` (`BitfieldOps.UnsignedCheckIs`, `BitfieldOps.SignedCheckIs`). Failing case:
  `BitfieldOps.UnderflowReturnsOne`.
- `BITCOUNT` answers 0 for two negative indexes in the wrong order even when both are clamped to the first element;
  `BITPOS` does not. The reply is the count between the clamped ends if and only if that is not so or the first element has no one bits
  (`Bitcount.SelectedIsClamped`, `Bitcount.ReplyIsClamped`). Failing case: `Bitcount.BackwardsCountsNothing`.

## Model

| member | source | states |
|---|---|---|
| `Decimal.StrtolPrinted` | redis/src/util.c:356-389 | reading a printed number back gives the number, whatever follows it |
| `Decimal.AtoiPrinted` | redis/src/aof.c:1455-1456 | the argument count survives `atoi`, which is 32 bits wide, below 2^31 |
| `Decimal.StrtolForms` | redis/src/aof.c:1477-1477 | blanks and a plus sign are skipped, a minus sign counts, what does not fit a `long` is clamped |
| `Decimal.PrintIntRoundTrip` | redis/src/util.c:320-346 | printing a signed integer loses nothing |
| `Decimal.CutPrintedIsPositive` | redis/src/aof.c:1453-1477 | a count cut off after some digits still reads as a positive number, so a torn header is never taken for bad format |
| `Resp.CatAppendOnlyGenericCommand` | redis/src/aof.c:1239-1262 | appends exactly the array-of-bulk-strings encoding of the command to the buffer |
| `Resp.CommandIs` | redis/src/aof.c:1239-1262 | the bytes of one command, literally |
| `Resp.ReadEncoded` | redis/src/aof.c:1445-1495 | the reader returns the very command that was encoded, for arbitrary binary arguments, and leaves the rest of the stream |
| `Resp.CutCommand` | redis/src/aof.c:1445-1495 | a command cut at any byte short of its end reads as an unexpected end of file, never as a format error |
| `Loader.ReadArguments` | redis/src/aof.c:1466-1495 | the loop over bulk strings yields the arguments, an early end or a format error exactly as the format demands |
| `Loader.ReadCommand` | redis/src/aof.c:1445-1495 | one command off the stream, with end of file, short read, annotation lines and bad format told apart: an encoded command comes back with the rest, a cut one is a short read |
| `Loader.ReplayStream` | redis/src/aof.c:1429-1597 | the loading loop, with its `valid_up_to` and `valid_before_multi` bookkeeping, against the recursive meaning of a log |
| `Loader.LoadSingleAppendOnlyFile` | redis/src/aof.c:1358-1605 | status, executed commands and size after truncation for every file; a complete log is accepted and settles; truncation happens only when it is allowed and works; the theorems of `LoaderErrors` say what is refused |
| `Loader.LoadCutLog` | redis/src/aof.c:1429-1597 | for every byte prefix of a log, with truncation allowed: never a format error, executed are exactly the complete commands outside an unfinished `MULTI`, and the file ends where the code says |
| `Loader.LoadClosedLog` | redis/src/aof.c:1429-1597 | a complete log loads under every setting and executes all its commands |
| `Loader.ResumeAfterCut` | redis/src/aof.c:1533-1586 | commands appended after a tolerated cut take effect on the next load if and only if the cut did not fall inside a command of an unfinished `MULTI` |
| `Loader.ResumeFails` | redis/src/aof.c:1533-1586 | after such a cut any appended command is swallowed by the open `MULTI` |
| `Loader.TornIsVisible` | redis/src/aof.c:1533-1586 | the bad cut can be recognised from the bytes that survived |
| `Loader.OpenLogDiffers` | redis/src/aof.c:1533-1586 | the bytes of a log that ends in an open transaction are not those of any complete log |
| `LoaderErrors.LoadCutStrict` | redis/src/aof.c:1533-1597 | for every byte prefix of a log, with truncation not allowed or not working: the load fails exactly where truncation would have saved it, leaves the file as it is, and has executed the same commands |
| `LoaderErrors.BadFormatFails` | redis/src/aof.c:1445-1477 | a format error after whole commands is fatal under every setting |
| `LoaderErrors.BadStart` | redis/src/aof.c:1452-1453 | a line that starts neither a command nor an annotation is a format error |
| `LoaderErrors.BadCount` | redis/src/aof.c:1455-1456 | so is a count below 1 |
| `LoaderErrors.BadArgument` | redis/src/aof.c:1466-1476 | so is an argument line without a dollar sign, whatever arguments precede it |
| `LoaderErrors.NegativeLength` | redis/src/aof.c:1477-1480 | a negative length is fatal |
| `LoaderErrors.StrayZero` | redis/src/aof.c:1454-1454 | a header that ends in a zero byte is a read error and fatal, not an end of file |
| `LoaderErrors.UnknownFails` | redis/src/aof.c:1497-1506 | an unknown command is fatal under every setting, after the commands before it |
| `LoaderErrors.AnnotationSkipped` | redis/src/aof.c:1452-1452 | an annotation line between commands changes nothing |
| `LoaderErrors.ExecIsNoCommand` | redis/src/aof.c:1508-1521 | `EXEC` is never executed as a command |
| `LoaderErrors.OtherFiles` | redis/src/aof.c:1370-1425 | an RDB file is told apart, an empty file is empty |
| `Rewrite.RewriteCollection` | redis/src/aof.c:1751-1990 | the counting loop of the list, set, sorted set and hash writers emits whole commands: every batch header counts exactly the arguments that follow, for every collection length |
| `Rewrite.BatchSizes` | redis/src/aof.c:1751-1990 | every command but the last of a collection carries 64 elements, the last what is left |
| `Rewrite.SmallValues` | redis/src/aof.c:1751-1990 | the commands written for one small value of each type, literally |
| `Keyspace.RefusedCommands` | redis/src/aof.c:1508-1521 | elements are not added to a key of another type, a missing key gets no expire time |
| `Rewrite.RewriteEntry` | redis/src/aof.c:2253-2295 | one key: its value, then its expire time if it has one |
| `Rewrite.RewriteDb` | redis/src/aof.c:2246-2313 | all keys of a database, in whatever order the dictionary gives them |
| `Rewrite.RewriteAppendOnlyFileRio` | redis/src/aof.c:2219-2315 | a `SELECT` for every non-empty database, then its entries, as one well-formed log |
| `RewriteMeaning.BuildValue` | redis/src/aof.c:1751-1990 | adding the visited elements one by one to an empty collection gives the collection back |
| `RewriteMeaning.ExecuteBatches` | redis/src/aof.c:1751-1990 | batches of 64 together add all elements, however the collection is cut |
| `RewriteMeaning.DumpRebuilds` | redis/src/aof.c:2219-2320 | executing the rewritten commands from empty, from any selected database, rebuilds every database, value and expiry |
| `RewriteMeaning.RewriteRoundTrip` | redis/src/aof.c:2219-2320 | the same through the text: printed, loaded by the loader under any setting, executed |
| `KeyspaceOrders.ExecuteTidy` | redis/src/aof.c:1508-1521 | every command keeps a dataset fit for rewriting: strings a length header can state, no empty collection, expire times that fit |
| `KeyspaceOrders.TidyOrders` | redis/src/aof.c:2246-2313 | every iteration over such a dataset meets only strings the log can hold |
| `KeyspaceOrders.OrdersExist` | redis/src/aof.c:2246-2313 | such a dataset has an iteration order |
| `AofFeed.FeedKeeps` | redis/src/aof.c:1283-1322 | eliding `SELECT` is sound: a file that replays each command on its own database from any starting database still does after another unit, single command or transaction, is fed |
| `AofFeed.UnitTargets` | redis/src/server.c:3178-3213 | replaying a propagated unit executes each command on the database it ran on |
| `AofFeed.UnitSettles` | redis/src/server.c:3178-3213 | the `MULTI`/`EXEC` around several commands closes, nests nothing and drops nothing |
| `AofProtocol.FlushConserves` | redis/src/aof.c:1101-1204 | for every pattern of short writes and `ftruncate` results, file plus buffer stay the same bytes and the recorded size is the file length; the write position stays right if and only if no hole is left |
| `AofProtocol.HoleIsWritten` | redis/src/aof.c:807-807 | without append mode, a short write that was taken back makes the next flush write zero bytes between old and new commands |
| `AofProtocol.PropagateKeeps` | redis/src/server.c:3178-3213 | executing and feeding commands keeps the protocol invariant |
| `AofProtocol.OpenOn` | redis/src/aof.c:788-844 | opening the next INCR file finishes the current one and starts an empty one from the live dataset, through failure to create or to persist |
| `AofProtocol.StartRewriteKeeps` | redis/src/aof.c:2403-2455 | starting a rewrite whose flush is complete keeps the invariant whether the file opens, the manifest persists or the fork succeeds, with AOF on or being switched on |
| `AofProtocol.RewriteDoneKeeps` | redis/src/aof.c:2544-2699 | the handler keeps the invariant through failed renames, a failed persist and history deletion; AOF switches from waiting to on only in a state that replays to the live dataset |
| `AofProtocol.MidRewrite` | redis/src/aof.c:2570-2656 | the states in between, base renamed, manifest persisted, any part of the history deleted, satisfy the invariant too, with AOF on or being switched on, so a crash there is covered |
| `AofProtocol.DeleteHistoryKeeps` | redis/src/aof.c:667-691 | deleting history files never touches a file the manifest needs |
| `AofProtocol.HistoryIsGone` | redis/src/aof.c:667-691 | with deletion on no history file and no history entry is left, nothing else goes, and the manifest on disk follows if it can be written |
| `AofProtocol.OpensFile` | redis/src/aof.c:788-844 | opening succeeds exactly when the file can be created and, with AOF on, the manifest persisted; the file is empty, and the manifest lists it last or is untouched |
| `AofProtocol.AbortCleans` | redis/src/aof.c:2570-2656 | a handler that gives up leaves no file under a new name and the manifest as it was |
| `AofProtocol.SwitchForcesSelect` | redis/src/aof.c:2640-2656 | after a rewrite that went through the next command gets a `SELECT` |
| `AofProtocol.RecoversLive` | redis/src/aof.c:1608-1729 | loading BASE then INCR files as the manifest on disk says, then the buffer, gives the live dataset |
| `AofLoading.LoadAllIs` | redis/src/aof.c:1608-1729 | for every disk: a load succeeds exactly when all files named are there, those before the last are complete and the last is not broken; it is short exactly when the last file is; it has replayed all files in order |
| `AofLoading.OnlyLastMayEndShort` | redis/src/aof.c:1669-1705 | a file before the last that is truncated, broken or in another format makes the load fail, BASE or INCR |
| `AofLoading.EarlierCutFails` | redis/src/aof.c:1703-1705 | in every state the protocol reaches, losing the end of an INCR file that is not the last is not survived |
| `AofProtocol.CrashRecovers` | redis/src/aof.c:1608-1729 | after losing any tail of the file being written, the load succeeds and yields the dataset after a prefix of the commands: those before the first that is not whole or whose transaction is not finished |
| `AofProtocol.RestartKeeps` | redis/src/aof.c:712-766 | a restarted server satisfies the invariant again, unless the crash fell inside a command of an unfinished transaction |
| `AofProtocol.RestartBreaks` | redis/src/aof.c:1533-1586 | after such a crash no history of commands explains the files of the restarted server |
| `AofProtocol.RestartIff` | redis/src/aof.c:1533-1586 | a crash leaves a server the invariant covers if and only if the surviving bytes do not end inside a command of an open transaction |
| `AofProtocol.StepKeeps` | redis/src/aof.c:2544-2699 | every step keeps the invariant |
| `AofProtocol.EveryRunRecovers` | redis/src/aof.c:2544-2699 | in every state of every run all files named by the manifest on disk exist, and with AOF on they replay with the buffer to the live dataset, also while a short write has left the write position stale |
| `AofProtocol.EveryRunSurvives` | redis/src/aof.c:1608-1729 | in every state of every run a crash that cuts the last file loses nothing but a tail of its commands |
| `AofServer.Aof.AofWrite` | redis/src/aof.c:1007-1024 | the retry loop writes a prefix of the buffer and reports its length, or -1 if nothing got out |
| `AofServer.Aof.FlushAppendOnlyFile` | redis/src/aof.c:1101-1237 | the flush refines the step that `FlushConserves` is about, or ends the process under the "always" policy |
| `AofServer.Aof.FeedAppendOnlyFile` | redis/src/aof.c:1283-1322 | the buffer grows by the command with a `SELECT` in front when the database changed, or not at all when AOF is off and no child runs |
| `AofServer.Aof.PropagatePendingCommands` | redis/src/server.c:3178-3213 | refines the propagation step |
| `AofServer.Aof.OpenNewIncrAofForAppend` | redis/src/aof.c:788-844 | the manifest in memory changes only when its copy is on disk; on success an empty file is open; no file but the new one is touched |
| `AofServer.Aof.RewriteAppendOnlyFileBackground` | redis/src/aof.c:2403-2455 | refines the step that starts a rewrite |
| `AofServer.Aof.MarkRewrittenIncrAofAsHistory` | redis/src/aof.c:491-521 | walking from the tail, all INCR files but the one being written end up in the history in order |
| `AofServer.Aof.AofDelHistoryFiles` | redis/src/aof.c:667-691 | unlinking one by one, then persisting, refines the deletion step |
| `AofServer.Aof.PutFilesInPlace` | redis/src/aof.c:2570-2620 | after a failed rename nothing renamed before is left |
| `AofServer.Aof.FinishRewrite` | redis/src/aof.c:2686-2699 | the cleanup touches neither manifest nor dataset, no file but the temporary one, and nothing at all of files and buffer once AOF is on |
| `AofServer.Aof.BackgroundRewriteDoneHandler` | redis/src/aof.c:2544-2699 | refines the step that ends a rewrite, on every path |
| `AofEndToEnd.ReplayAgrees` | redis/src/aof.c:1508-1521 | replay with a selected database is applying each command to its target database |
| `AofEndToEnd.DumpRepresents` | redis/src/aof.c:2219-2320 | the log the rewrite child writes is a BASE file for its dataset in the sense of the protocol |
| `AofEndToEnd.LoadAllTidy` | redis/src/aof.c:1608-1729 | whatever is on disk, loading it gives a dataset fit for rewriting |
| `AofEndToEnd.NextTidy` | redis/src/aof.c:2544-2699 | every step of the server, crashes included, leaves a live dataset and a child dataset fit for rewriting |
| `AofEndToEnd.RunIsRun` | redis/src/aof.c:2219-2320 | a run in which every successful child just compiled its dataset, in any iteration order, is a run of the protocol |
| `AofEndToEnd.KeyspaceRunRecovers` | redis/src/aof.c:2544-2699 | in every state of every such run, with AOF on, files and buffer load to the live dataset |
| `AofEndToEnd.KeyspaceRunSurvives` | redis/src/aof.c:1608-1729 | and a crash costs at most a tail of the commands of the last file |
| `AofEndToEnd.ChildCanSucceed` | redis/src/aof.c:2219-2320 | in every state of every such run a running child has an iteration order to compile |
| `AofEndToEnd.TornLog` | redis/src/aof.c:1533-1586 | `MULTI` and `SET k v` cut one byte before the end: what is appended after the load is lost |
| `AofEndToEnd.RewriteDoublesPush` | redis/src/aof.c:2417-2421 | `RPUSH l a`, still in the buffer when a rewrite starts, is in the list twice when the files are loaded after the rewrite |
| `AofEndToEnd.RewriteMovesKey` | redis/src/aof.c:2417-2421 | `SET k v` on database 1, repeated without its `SELECT` and still in the buffer when a rewrite starts, is loaded into database 0 although executing it again on database 1 changes nothing |
| `AofFailures.HoleReached` | redis/src/aof.c:807-807 | a rewrite, any commands and a short write that is taken back reach a stale write position; after the next flush the log does not load |
| `AofFailures.ZeroFails` | redis/src/aof.c:1445-1453 | a zero byte after whole commands makes a file unloadable under every setting |
| `AofFailures.HoleUnloadable` | redis/src/aof.c:807-807 | in every state the protocol reaches with whole commands on file, a short write taken back and the next complete flush leave files that do not load |
| `AofFailures.TornReached` | redis/src/aof.c:1533-1586 | any transaction, flushed and cut by one byte, is a reachable crash of the bad kind |
| `AofFailures.RewriteLoads` | redis/src/aof.c:2417-2421 | for any bytes left in the buffer: a load after the rewrite gives the live dataset with these bytes replayed on it from database 0 on |
| `AofFailures.RewriteRepeatsPending` | redis/src/aof.c:2417-2421 | complete commands left in the buffer when a rewrite starts, however much the flush got out, are executed again by a load after it, those before the first `SELECT` on database 0 |
| `AofFailures.RewriteRecoversIff` | redis/src/aof.c:2417-2421 | the files recover the live dataset if and only if that replay changes nothing |
| `AofSwitching.SameLoad` | redis/src/aof.c:1608-1729 | a load looks at nothing but the files the manifest names |
| `AofSwitching.StepSpares` | redis/src/aof.c:2544-2699 | no step made while AOF is being switched on touches a file that the manifest on disk names |
| `AofSwitching.CrashWhileSwitching` | redis/src/aof.c:1608-1729 | in every run, while AOF is being switched on, a crash that leaves anything of the temporary file loads what the files gave at the start |
| `AofSwitching.CrashBetweenRenames` | redis/src/aof.c:2570-2620 | the same between the two renames that end the switch |
| `Acl.ApplyKeeps` | redis/src/acl.c:974-1140 | every accepted rule keeps: ALLCOMMANDS means all bits are set, bits no command owns equal the reserved bit, first arguments belong to top-level commands |
| `Acl.EveryRunKeeps` | redis/src/acl.c:974-1140 | so does every sequence of accepted rules |
| `AclMeaning.AllowCategoryMeans` | redis/src/acl.c:543-575 | `+@category` sets the bit of a command exactly if it was set or the command, no module command, has the category, and of a subcommand exactly if it was set or its container or itself has it; ALLCOMMANDS stays, first arguments of the commands reached go |
| `AclMeaning.DenyCategoryMeans` | redis/src/acl.c:543-575 | `-@category` clears exactly those bits and ALLCOMMANDS with them |
| `AclMeaning.CommandMeans` | redis/src/acl.c:528-541 | `+command` and `-command` change the command with all its subcommands, drop its first arguments and touch nothing else |
| `AclMeaning.SubMeans` | redis/src/acl.c:1060-1110 | a rule for a subcommand changes that subcommand alone |
| `AclMeaning.AllMeans` | redis/src/acl.c:991-1004 | after `+@all` everything may run, after `-@all` only what needs no authentication |
| `AclMeaning.FirstArgMeans` | redis/src/acl.c:1583-1608 | after a rule that allows a first argument, a command denied otherwise runs exactly with that first argument, in any case, or one allowed before |
| `AclMeaning.SelectZero` | redis/src/acl.c:1583-1608 | allowing the first argument 0 of `select` allows `select 0`, not `select 1` and not `select` |
| `AclMeaning.SubcommandMeans` | redis/src/acl.c:1583-1608 | a subcommand runs by its bit alone, in every reachable selector |
| `AclMeaning.SameTextIs` | redis/src/acl.c:882-908 | first arguments are compared without regard to the case of letters |
| `AclMeaning.RefusedWhen` | redis/src/acl.c:1058-1140 | a rule is refused exactly when it names something unknown, has an empty argument or is about an argument of a subcommand, each with its error |
| `AclDescribe.SyncTableWorks` | redis/src/acl.c:605-638 | the single-command pass turns a selector that agrees nowhere into one that agrees on every command, subcommand and first argument |
| `AclDescribe.DescriptionWorks` | redis/src/acl.c:647-760 | opening rule, any categories and single commands rebuild the selector and all its decisions; the predicted bitmap is the user's |
| `AclSelector.SelectorObject.SetCommandBit` | redis/src/acl.c:515-524 | setting one bit of the word array changes that bit only, and clearing one drops ALLCOMMANDS |
| `AclSelector.SelectorObject.ChangePermission` | redis/src/acl.c:528-541 | a command and all its subcommands change and lose their first arguments |
| `AclSelector.SelectorObject.SetBitsForCategory` | redis/src/acl.c:543-557 | all commands and subcommands of a category change, module commands excepted |
| `AclSelector.SelectorObject.AddAllowedFirstArg` | redis/src/acl.c:882-908 | an argument is listed once, without regard to case |
| `AclSelector.SelectorObject.SetSelector` | redis/src/acl.c:974-1140 | the in-place rule interpreter agrees with its meaning, error by error, and changes nothing when it refuses |
| `AclSelector.SelectorObject.BestCategory` | redis/src/acl.c:695-718 | the greedy choice: fewest differences, then most in common, among categories worth a rule |
| `AclSelector.NoExceptions` | redis/src/acl.c:577-603 | the differences counted for a category are the commands it would get wrong |
| `AclSelector.ChooseCategories` | redis/src/acl.c:694-738 | the loop ends, and the fake selector is what the emitted rules give on a fresh one |
| `AclSelector.DescribeSelectorCommandRules` | redis/src/acl.c:647-760 | for every reachable selector the emitted rules rebuild it; the final comparison cannot fail |
| `AclSelector.SelectorObject.CheckCommand` | redis/src/acl.c:1583-1608 | a command is allowed by its bit or by its first argument |
| `Popcount.TableIs` | redis/src/bitops.c:44-44 | every table entry is the number of one bits of its index |
| `Popcount.FoldPairs` | redis/src/bitops.c:66-66 | the first masking step leaves in every 2-bit field its count, for any number of fields |
| `Popcount.FoldNibbles` | redis/src/bitops.c:67-67 | the second step does so for 4-bit fields |
| `Popcount.FoldBytes` | redis/src/bitops.c:80-86 | the third step does so for bytes, no carry leaving a byte |
| `Popcount.AddBytesIs` | redis/src/bitops.c:80-86 | the multiplication adds up the four bytes without loss because 7 * 8 * 4 = 224 fits a byte |
| `Popcount.RedisPopcount` | redis/src/bitops.c:40-92 | the number of one bits, counted bit by bit, for every string and alignment |
| `Bitcount.CountRange` | redis/src/bitops.c:861-872 | counting whole bytes and taking back the masked edges gives the ones of exactly the bit range, also when both ends are in one byte |
| `Bitcount.BitcountCommand` | redis/src/bitops.c:796-874 | the reply is the number of one bits at the selected positions, for every byte or bit range, positive or negative, and when that is the count between the clamped ends |
| `Bitcount.LastSelected` | redis/src/bitops.c:818-834 | from index -k to the end are the last k elements |
| `BitString.NegativeIndex` | redis/src/bitops.c:831-834 | index -k is the element with k - 1 elements behind it, or the first one |
| `BitString.BitOrder` | redis/src/bitops.c:224-241 | bit 0 of a string is the most significant bit of its first byte |
| `Bitcount.SelectedIsClamped` | redis/src/bitops.c:820-823 | a position between the clamped ends is left out if and only if both ends are negative, in the wrong order and clamped to the first element, and it lies there |
| `Bitcount.ReplyIsClamped` | redis/src/bitops.c:820-823 | the reply is the count between the clamped ends if and only if the ends are not so or the first element holds no one bit |
| `Bitcount.BackwardsCountsNothing` | redis/src/bitops.c:820-823 | one byte 255, from -1 to -2: the reply is 0, between the clamped ends are 8 ones |
| `Bitpos.WordSkips` | redis/src/bitops.c:135-141 | a word equals the skip value exactly when all its bytes do |
| `Bitpos.LoadWord` | redis/src/bitops.c:152-159 | the word holds the next 64 bits of the zero-padded string, first bit on top |
| `Bitpos.ScanWord` | redis/src/bitops.c:176-180 | the last scan always finds a bit; the panic behind it is unreachable |
| `Bitpos.RedisBitpos` | redis/src/bitops.c:101-186 | the first position of the naive scan, the end of the string for a missing zero, -1 for a missing one, at any alignment |
| `Bitpos.Search` | redis/src/bitops.c:958-988 | masked first byte, whole bytes and masked last byte together find what the naive scan of the range finds |
| `Bitpos.BitposCommand` | redis/src/bitops.c:877-1003 | the reply is the naive scan of the selected positions; -1 for an empty range; just past the string for a zero bit without an explicit end |
| `Bitpos.LastInRange` | redis/src/bitops.c:917-940 | from index -k on are searched the last k elements |
| `Bitpos.EndCases` | redis/src/bitops.c:990-1000 | a string of ones: its length in bits for a zero, -1 within an explicit range; -1 for a missing one and for an empty range |
| `Bitfield.SetUnsignedBitfield` | redis/src/bitops.c:209-222 | the field spells the low bits of the value and no other bit changes |
| `Bitfield.GetUnsignedBitfield` | redis/src/bitops.c:229-241 | the number whose bits stand in the field |
| `Bitfield.FieldIs` | redis/src/bitops.c:209-241 | what was set is read back modulo 2^bits |
| `Bitfield.ByteField` | redis/src/bitops.c:209-241 | a field of eight bits on a byte boundary is that byte |
| `Bitfield.GetSignedBitfield` | redis/src/bitops.c:243-263 | the integer of the range whose two's complement stands in the field, up to 64 bits |
| `Bitfield.SetThenGet` | redis/src/bitops.c:224-263 | a signed value comes back wrapped to the width, unchanged if it fits |
| `Bitfield.WrapIs` | redis/src/bitops.c:358-376 | wrapping gives the value of the range congruent modulo 2^bits |
| `BitfieldOps.UnsignedCheckIs` | redis/src/bitops.c:288-323 | for a value that fits: 1 for overflow, -1 for underflow unless wrapping, which returns 1, and 0 otherwise; WRAP gives the congruent value, SAT the nearest bound |
| `BitfieldOps.SignedWrapIs` | redis/src/bitops.c:358-377 | adding unsigned and spreading the sign bit wraps the true sum |
| `BitfieldOps.SignedCheckIs` | redis/src/bitops.c:325-378 | the same for signed fields of every width up to 64 |
| `BitfieldOps.UnderflowReturnsOne` | redis/src/bitops.c:267-272 | counting down from the least value of an 8-bit field returns 1 when wrapping and -1 when saturating, signed and unsigned |
| `BitfieldOps.SignedSetCheckIs` | redis/src/bitops.c:325-378 | for `SET` of any 64-bit value: overflow and WRAP are exact, SAT is right if and only if the value is above the maximum minus 2^63 |
| `BitfieldOps.SaturatesTheWrongWay` | redis/src/bitops.c:325-378 | the least 64-bit value saturates an 8-bit field at 127 |
| `BitfieldOps.SignedOp` | redis/src/bitops.c:1150-1181 | `SET` and `INCRBY`: old value, new value, reply and untouched bits under every policy |
| `BitfieldOps.SignedAnswer` | redis/src/bitops.c:1150-1181 | `SET` answers the old value, `INCRBY` the new one; a value that fits is stored as it is; no answer and no effect exactly for one that does not fit under FAIL |
| `BitfieldOps.UnsignedOp` | redis/src/bitops.c:1182-1214 | the same for unsigned fields |
| `BitfieldOps.UnsignedAnswer` | redis/src/bitops.c:1182-1214 | the same for unsigned fields |
| `BitfieldOps.Get` | redis/src/bitops.c:1216-1247 | reading through the 9-byte window is reading the zero-padded string, missing key included |
| `Bitop.OpOfWords` | redis/src/bitops.c:693-742 | a 64-bit operation is the byte operation on each byte |
| `Bitop.FoldBit` | redis/src/bitops.c:747-770 | a result bit of AND is set when it is in every string, of OR when in some string, of XOR when in an odd number of strings |
| `Bitop.FastPath` | redis/src/bitops.c:683-743 | the four-word loops leave the fold of all strings in every byte they passed |
| `Bitop.OneByte` | redis/src/bitops.c:748-768 | stopping early at 0 or 0xff changes nothing |
| `Bitop.BitopCommand` | redis/src/bitops.c:639-771 | the result is as long as the longest string, and each of its bits is set when all, some, an odd number of strings have it, or the one string does not; no result when all are empty or missing |
| `Blocked.ExactlyOnce` | redis/src/blocked.c:729-811 | a client is on a key's list exactly once if and only if the key is among its keys, and no empty list is kept |
| `Blocked.InBlockingOrder` | redis/src/blocked.c:729-773 | the waiters of a key stand in the order in which they blocked |
| `Blocked.WantedIsSeen` | redis/src/blocked.c:830-866 | the early returns never drop a key that some client of the type waits for |
| `BlockedServer.Server.BlockClient` | redis/src/blocked.c:89-106 | flag, type, counters and the list of postponed clients change together |
| `BlockedServer.Server.BlockForKeys` | redis/src/blocked.c:729-773 | the client joins the end of the list of each of its keys once; all invariants hold |
| `BlockedServer.Server.UnblockClientWaitingData` | redis/src/blocked.c:775-811 | the client leaves all its lists, emptied lists go, in any dictionary order |
| `BlockedServer.Server.QueueClientForReprocessing` | redis/src/blocked.c:168-175 | the flag holds exactly for queued clients, each queued once |
| `BlockedServer.Server.UnblockClient` | redis/src/blocked.c:179-215 | index, counters, flags and queue agree afterwards and nothing else changes |
| `BlockedServer.Server.TakeUnblocked` | redis/src/blocked.c:127-150 | the head leaves the queue with its flag cleared; a client blocked again is not run |
| `BlockedServer.Server.SignalKeyAsReady` | redis/src/blocked.c:813-866 | dictionary and queue agree without duplicates; a list that a client blocked on lists waits for is queued, likewise a sorted set and a stream; a key nobody waits for, or of another type, is not |
| `BlockedServer.Server.ServeWaiters` | redis/src/blocked.c:285-333 | clients served for a list or a sorted set are the first waiters of that type in blocking order, at least one if there is any; exactly these are unblocked |
| `BlockedServer.Server.ServeClientsBlockedOnKey` | redis/src/blocked.c:285-297 | skipping a type nobody waits for, or a key without waiters, is fair too |
| `BlockedServer.Server.HandleClientsBlockedOnKeys` | redis/src/blocked.c:621-697 | the drain loop ends, by blocked clients then queued keys, with dictionary and queue empty; every queued key gets its turn in order; a list serves only clients blocked on lists, first the one that waits longest, likewise a sorted set, a stream only clients blocked on streams; nobody else is unblocked |
| `CoList.ItemList.AddTail` | libco/co_routine.cpp:191-211 | a free node becomes the last; a node on some list stays there |
| `CoList.ItemList.PopHead` | libco/co_routine.cpp:212-236 | the first node leaves and names no list any more |
| `CoList.ItemList.Join` | libco/co_routine.cpp:238-266 | all nodes of the other list follow, in order, and it is empty |
| `CoList.RemoveFromLink` | libco/co_routine.cpp:151-189 | a node leaves whatever list it is on and its neighbours close the gap |
| `CoLoop.NoneEarly` | libco/co_routine.cpp:847-864 | for all calls of the resumed coroutines: the pass ends with an empty active list and resumes no item as timed out before its time |
| `CoLoop.RipeFires` | libco/co_routine.cpp:847-864 | every item of the active list is processed unless the wheel raised it early |
| `CoLoop.NothingLost` | libco/co_routine.cpp:847-864 | every active or waiting item is processed or waits afterwards |
| `CoLoop.WaitsOn` | libco/co_routine.cpp:847-864 | a waiting item that nobody signals is not processed and goes on waiting |
| `CoLoop.EarlyWaitsAgain` | libco/co_routine.cpp:848-857 | an item raised early that nobody signals waits again, unprocessed |
| `CoLoop.ReachIs` | libco/co_routine.cpp:847-864 | every item of the active list gets to its head, with the flag it has, before it is processed or put back |
| `CoLoop.ReachPlays` | libco/co_routine.cpp:847-864 | the pass consists of what was processed before that point and of the pass from there on |
| `CoLoop.SignalArrives` | libco/co_routine.cpp:1127-1139 | a signalled item comes to the head at some point of the pass, and is processed there if and only if it was not raised early when it was signalled; otherwise it goes back on the wheel |
| `CoLoop.SignalLost` | libco/co_routine.cpp:1127-1139 | with no further signal, the item is resumed in this pass if and only if it was not raised early |
| `CoTimer.OnOneList` | libco/co_routine.cpp:151-266 | no node is on two lists |
| `CoTimer.SlotAtOffset` | libco/co_routine.cpp:409-436 | the slot computed for a distance is the one slot at that distance around the wheel |
| `CoTimer.Epoll.AddTimeout` | libco/co_routine.cpp:378-412 | an item waits from the current start tick on unless its time or the clock is past, in which case nothing changes |
| `CoTimer.GatherIsDue` | libco/co_routine.cpp:434-438 | the slots swept hold exactly the items due by then, in due order |
| `CoTimer.TurnedTo` | libco/co_routine.cpp:425-440 | after the sweep the remaining items are in the right slots of the turned wheel |
| `CoTimer.ShortSweep` | libco/co_routine.cpp:425-438 | when the number of ticks does not survive the cut to an `int`, the sweep takes all due items if and only if none is due behind its end |
| `CoTimer.OutOfStep` | libco/co_routine.cpp:434-440 | a wheel started at a tick its sweep did not reach is in step if and only if nothing is left on it |
| `CoTimer.Epoll.TakeAllTimeout` | libco/co_routine.cpp:413-443 | taken are exactly the items whose time, or whose clamp at the horizon, is reached; all others wait on; when the tick difference does not survive the cut to an `int`, what is taken instead, where the wheel starts, and when it is still in step |
| `CoTimer.ClockJump` | libco/co_routine.cpp:425-440 | 60000 slots, a jump of 2^32 milliseconds: an item that expired at tick 3 is not taken and the wheel is out of step |
| `CoTimer.Epoll.Step` | libco/co_routine.cpp:844-864 | the head of the active list goes back on the wheel if it was raised early and is processed otherwise |
| `CoTimer.Epoll.Drain` | libco/co_routine.cpp:843-864 | the loop over the active list, with each processed item resuming a coroutine that adds timeouts and signals conditions, is the pass the lemmas of `CoLoop` are about |
| `CoTimer.Epoll.Turn` | libco/co_routine.cpp:830-864 | whatever the resumed coroutines do: every waiting item whose time has come is processed, no item is processed as timed out before its time, none is lost, and an item that is not due and not signalled waits on, also when the wheel raised it early |
| `CoTimer.Epoll.Activate` | libco/co_routine.cpp:1127-1139 | an item moves from any list to the end of the active list, keeps its flag and does not wait any more |
| `CoTimer.LostWakeup` | libco/co_routine.cpp:848-857 | a wait of 70 seconds that is signalled in the turn in which the 60-second wheel raises it is not resumed |
| `CoMutex.EveryRun` | libco/co_comm.cpp:10-22 | in every interleaving at most one owner, the counter is owner or next owner plus waiters, grants are a prefix of requests, nobody waits for a free lock |
| `CoMutex.WakeupArrives` | libco/co_routine.cpp:843-864 | working off the active list, with nothing in between, hands the lock to the woken waiter |
| `CoMutex.HandOver` | libco/co_comm.cpp:19-22 | after an unlock and one such pass of the loop the longest waiter owns the lock |
| `CoMutex.WaiterGetsLock` | libco/co_routine.cpp:843-864 | in every run, a woken waiter at position p of the active list owns the lock after p + 1 steps of the event loop, whatever locks and events come between |
| `CoMutex.UnlockHandsOver` | libco/co_comm.cpp:19-22 | in every run, an unlock hands the lock to the coroutine that waits longest, once the loop has worked off what was active before |
| `CoMutex.Mutex.CoLock` | libco/co_comm.cpp:10-17 | blocks exactly when somebody owns, is about to own or waits for the lock |
| `CoMutex.Mutex.CoUnLock` | libco/co_comm.cpp:19-22 | keeps the invariant and signals the first waiter |
| `CoMutex.Mutex.CondSignal` | libco/co_routine.cpp:1127-1139 | the first waiter moves to the end of the active list; woken and waiting coroutines together stay the same in order |
| `CoMutex.Mutex.ResumeHead` | libco/co_routine.cpp:1156-1183 | a resumed waiter is the only owner |
| `Adlist.List.AddNodeHead` | redis/src/adlist.c:89-107 | the sequence of nodes gains a first one; links, ends and length agree |
| `Adlist.List.AddNodeTail` | redis/src/adlist.c:115-133 | the sequence gains a last one |
| `Adlist.List.InsertNode` | redis/src/adlist.c:135-162 | the sequence gains one before or after a given node |
| `Adlist.List.DelNode` | redis/src/adlist.c:168-181 | the sequence loses that node |
| `Adlist.List.Empty` | redis/src/adlist.c:57-72 | the walk by length meets every node once and never leaves the list |
| `Adlist.List.Index` | redis/src/adlist.c:321-333 | the element from the head, or from the tail for a negative index, or none |
| `Adlist.List.RotateTailToHead` | redis/src/adlist.c:336-348 | the last node becomes the first |
| `Adlist.List.RotateHeadToTail` | redis/src/adlist.c:351-363 | the first node becomes the last |
| `Adlist.List.Join` | redis/src/adlist.c:367-383 | concatenation; the other list is empty |
| `Adlist.SearchKey` | redis/src/adlist.c:296-314 | the first match or none |
| `Adlist.Dup` | redis/src/adlist.c:251-285 | a fresh list of the copied values in order, or none exactly when a value cannot be copied |
| `Adlist.SweepForward` | redis/src/adlist.c:230-241 | a loop over `listNext` that deletes any of the nodes it is given visits every original node once, in order, and leaves the others |
| `Adlist.SweepBackward` | redis/src/adlist.c:211-241 | the same from the tail, as the manifest code uses it |
| `Crc16.TableStepIs` | redis/src/crc16.c:82-88 | one table step is eight steps of the bit-serial register, for all 256 entries |
| `Crc16.RemainderStep` | redis/src/crc16.c:82-88 | one more message byte in the long division is one more step of the loop |
| `Crc16.Crc` | redis/src/crc16.c:82-88 | the remainder of the message followed by 16 zero bits divided by x^16 + x^12 + x^5 + 1, for every byte string |
| `Crc16.CheckValue` | redis/src/crc16.c:35-44 | the check value of the algorithm: "123456789" gives 31C3 |
| `Crc16.Linear` | redis/src/crc16.c:82-88 | the checksum of the exclusive or of two strings of one length is the exclusive or of the checksums |

## Left out

- AOF: RDB preambles, timestamp annotations being written, streams, modules, functions, the upgrade from a single-file AOF, fsync scheduling, progress reports, size counters other than the size of the last INCR file, and rewrites while AOF is off.
- `AofProtocol.EveryRunRecovers`: runs hold no write through a stale position, no rewrite start with an incomplete flush, and do not go on after a crash inside a command of an unfinished transaction, because after those steps the guarantee is false (`AofFailures.HoleUnloadable`, `AofFailures.RewriteRecoversIff`, `AofProtocol.RestartIff`); the crash itself is covered by `AofProtocol.EveryRunSurvives`.
- `AofProtocol.StartRewriteKeeps`: asks for a complete flush, because what is left over is executed again otherwise (`AofFailures.RewriteRecoversIff`).
- `AofFailures.HoleUnloadable`: speaks of a file that ends in a whole command; zero bytes inside a command may also be taken for its text.
- `AofProtocol.RestartKeeps`: leaves out a crash inside a command of an unfinished transaction, because the invariant is false after it (`AofProtocol.RestartBreaks`).
- AOF: the case where renaming the manifest succeeds and the directory fsync fails.
- `RewriteMeaning.RewriteRoundTrip`: scores are their printed text and element encodings are not modelled, because number formatting and encodings are other files.
- ACL: key and channel patterns, passwords, selectors in parentheses, file text and the log. Names are compared exactly except first arguments.
- Bit operations: parsing of arguments, growth of the string before a write, keyspace notifications.
- `Bitcount.BitcountCommand`: replies for syntax errors are not modelled, because they only read text.
- Blocked clients of module, replica-wait and stream-group kinds, the timeout table, statistics.
- `BlockedServer.Server.ServeWaiters`: iterates over the waiters as they were when the key's turn came, which is what `listNext` gives while only the node just returned is deleted (`Adlist.SweepForward`); client objects are entries of a map.
- libco: context switching, stacks, poll descriptors and hooks. A resumed coroutine also removes its own item from whatever list it is on, which is none by then.
- `CoTimer.Epoll.Drain`: the script of calls is finite, so a pass in which coroutines resume each other forever is covered up to any point but has no end.
- `CoTimer.Epoll.Turn`: asks for a number of ticks that survives the cut to an `int` or covers the wheel, because items are missed otherwise (`CoTimer.ShortSweep`, `CoTimer.ClockJump`).
- `CoMutex.WakeupArrives`: speaks of a pass without other steps; `CoMutex.WaiterGetsLock` is the statement for every run.
- `CoMutex.HandOver`: likewise; `CoMutex.UnlockHandsOver` is the statement for every run.
- `CoMutex.Mutex.CoLock`: condition queue and active list are sequences; their pointers are the subject of `CoList` and `CoTimer`.
- `Adlist.List.Empty`: freeing memory and the `free` callback.
