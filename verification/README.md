# A verified model of the Scylla Cluster Tests core

Scylla Cluster Tests is mostly plumbing to machines and clouds, around a small core of code that searches logs,
parses records, coordinates threads, keeps books and allocates nodes. This project models that core in Dafny and
proves what it does on every input, in every interleaving and over every run.

| module | what it models |
|---|---|
| `Text` | substring search, `split`, `join` and `readline` on text of one byte per character |
| `LogSearch` | `open_system_log`, the binary search over byte offsets of a log |
| `AuditLog` | `get_audit_log_rows`, the reader of multi-line audit records |
| `AuditSearch` | the same from a given time on, that is from where the search leaves the log |
| `DbLogReader` | event collection, backtrace attribution and delivery in `DbLogReader` |
| `LogCursor` | the cursor with which `DbLogReader` follows a growing log |
| `NodeInit` | `wait_for_init_wrap`, worker threads with a queue and a collecting coordinator |
| `BinaryUpdate` | `_update_db_binary`, phases of parallel tasks with barriers |
| `Coredump` | the coredump pipeline and its thread loop |
| `GossipInfo` | `get_gossip_info`, the parser of `nodetool gossipinfo` |
| `CommitLogCheck` | the commit log overflow detector |
| `Racks`, `AwsCluster`, `DockerCluster` | rack spread, mixed provisioning and index allocation |
| `Keystore` | the S3 tag and the cache check built on it |

`dafny verify dfyconfig.toml` checks everything.

Code that mutates is modelled by methods and classes; each is tied to a function on values, and the theorems are
about that function. Protocols are state machines, and their theorems speak of every legal sequence of steps. Hashes,
time stamp parsers, address normalisation, regular expressions and the outcome of remote commands are parameters, so
a theorem holds for every behaviour of them.

## Where the code and its comments differ

The model follows the code.

- `open_system_log` says it seeks to the given time. It loses the first line of the log whenever that line qualifies,
  and may lose the first qualifying line after it (`LogSearch.LostSecondLine`). It finishes without yielding on some
  logs whose last line has no time stamp (`LogSearch.NotYieldedLog`). When it does either is decided by the size of
  the log and three offsets in it (`LogSearch.CourseDecides`).
- `get_audit_log_rows` takes a time to start from. A record whose first line the search loses does not come back, and
  a record at the very start of the log never does (`AuditSearch.RowsSince`, `AuditSearch.FirstRecordIsLost`).
- The reader of database logs says it postpones a line whose end is not written yet. The cursor moves past the
  fragment, so the line is never processed whole (`LogCursor.ProcessedWholeIff`, `LogCursor.LostLine`); it is postponed
  only while the log has a single line (`LogCursor.PassCatchesUp`).
- A log of exactly one line leaves the cursor at zero, and the line is processed again by the next pass
  (`LogCursor.OnceExactlyWithoutSolo`).
- The comment on `filter_backtraces` says 10 lines; the code uses 20.
- A failed debug information lookup raises after the cursor has moved, so the later events of the batch are lost
  (`DbLogReader.Deliver`).
- The `error` field of an audit row is always false (`AuditLog.Judge`), and a last record without a closing quote
  keeps the reader in an endless loop unless the limit is met before (`AuditLog.LiveLogHangs`, `AuditLog.HangingLog`).
- A data centre token after the token that completes a gossip block is lost to its own node and leaks into the next
  (`GossipInfo.OwnDcsExactly`, `GossipInfo.LeakingPrintout`).
- A commit log overflow has to last 122 seconds, not 60, to be reported wherever it falls
  (`CommitLogCheck.LongOverflow`, `CommitLogCheck.ShorterOverflowCanHide`).
- `_get_new_node_indexes` says it returns `count` indexes; it may return more (`DockerCluster.AsManyAsAsked`).
- A mixed add may create more nodes than asked for, and without a named rack it may exceed two on-demand nodes
  (`AwsCluster.MoreThanAskedIff`, `AwsCluster.UnnamedAddToCluster`, `AwsCluster.UnnamedAddToEmpty`,
  `AwsCluster.FourOnDemandNodes`).
- The coredump thread does not end after a stop while the node is unreachable and cores are in progress
  (`Coredump.NeverDrainsWhileDown`).

## Model

| member | source | states |
|---|---|---|
| `LogSearch.OpenSystemLog` | sdcm/cluster.py:1503-1538 | For every text and every stamp parser it ends; the file is left at a line boundary. If stamped lines are in order, every stamped line from there on is at or after the requested second; a qualifying first line of the log is always lost, and apart from it no qualifying line is lost or exactly the first one. Which of the two, and whether anything is yielded, is decided by the course of a bisection on the size of the log and the offsets of its last early, last stamped and last line. Not yielding needs a tail without stamps in any log, and is equivalent to one when no line qualifies |
| `LogSearch.Probe` | sdcm/cluster.py:1515-1535 | One probe reports the first stamped line after the dropped fragment with nothing stamped between, on which side of the time it is, or the end of the log, or that no stamped line follows |
| `LogSearch.Bisect` | sdcm/cluster.py:1512-1535 | The loop ends between a probe that found an early line and one that did not, with the file where one of the two left it |
| `LogSearch.CrossingFromBelow` | sdcm/cluster.py:1532-1538 | If the last probe found an early line, nothing qualifying is lost |
| `LogSearch.CrossingFromAbove` | sdcm/cluster.py:1532-1538 | Otherwise the qualifying line it read, which is the first one after the log's first line, is lost, or none if it ran into the end of the log |
| `LogSearch.CourseDecides` | sdcm/cluster.py:1512-1538 | For every log in order: nothing is yielded if and only if the bisection meets an offset from the last stamped line up to the last line; otherwise no qualifying line but the log's first is lost if and only if the last offset probed is below the last early line or not below the last line |
| `LogSearch.SearchFollowsCourse` | sdcm/cluster.py:1514-1535 | The search over the text is that bisection on numbers, and ends at the last early line or one offset before |
| `LogSearch.ProbeClass` | sdcm/cluster.py:1515-1535 | What a probe finds depends only on where its offset lies among the three lines |
| `LogSearch.SearchIsPositioned` | sdcm/cluster.py:1532-1538 | A position yielded for a log in order keeps the promises above |
| `LogSearch.LostSecondLine` | sdcm/cluster.py:1514-1538 | A log of two stamped lines whose only qualifying line, the second, is lost |
| `LogSearch.NotYieldedLog` | sdcm/cluster.py:1514-1530 | A log of two lines on which nothing is yielded |
| `LogSearch.TailMustBeProbed` | sdcm/cluster.py:1522-1530 | Without a qualifying line a completed search excludes a tail without stamps |
| `LogSearch.WholeSecond` | sdcm/cluster.py:1510-1511 | The requested time is cut to its second |
| `AuditLog.GetAuditLogRows` | sdcm/audit.py:118-153 | The reading loop yields the rows and ends (normally, by an exception, or never) as `ReadRows` says, for every text and query |
| `AuditLog.ReadItem` | sdcm/audit.py:120-150 | One line, joined with the following ones if it starts a record, is taken and judged as `NextItem` says |
| `AuditLog.ReadUndoesPrint` | sdcm/audit.py:112-153 | Reading undoes printing: of any mix of other lines, printed records and records that do not come out as nine pieces, whatever text follows, exactly those the filters accept come back, in order, with every field but `error`; if they meet `limit_rows` they are cut to it (at least one) and the rest is not looked at, otherwise the reader goes on with it |
| `AuditLog.ReadAnyLog` | sdcm/audit.py:118-153 | With records that have no time stamp as well: the rows are those before the first of them that the filters accept, and there the reader raises unless the limit is met before |
| `AuditLog.RaisesIff` | sdcm/audit.py:118-153 | A log written to its end raises if and only if an accepted record without a time stamp comes before the limit is met |
| `AuditLog.GarbledIsPassedOver` | sdcm/audit.py:125-131 | A record that does not come out as nine pieces, broken ones included, leaves no trace |
| `AuditLog.BrokenFieldCutsRecord` | sdcm/audit.py:122-131 | A quote at the end of a line inside a field ends the record there, and leaves one piece per field up to that one |
| `AuditLog.WrongNumberIsGarbled` | sdcm/audit.py:125-131 | Any number of good fields but nine is such a record |
| `AuditLog.WholeLogIsRead` | sdcm/audit.py:112-153 | With an unfinished last line that is no audit line yet, that is all, and the reader finishes |
| `AuditLog.LiveLogHangs` | sdcm/audit.py:118-153 | With a last record still being written the same rows come back, and then the reader finishes if they meet the limit and never ends otherwise |
| `AuditLog.HangsOnUnfinished` | sdcm/audit.py:120-124 | The next item keeps the reader in an endless loop if and only if it starts with an audit line and nothing closes the record up to the end of the file |
| `AuditLog.JoinHangsIff` | sdcm/audit.py:122-124 | Joining from a line boundary never ends if and only if no line from there on ends in a quote and the last but one character is none |
| `AuditLog.BegunLineHangs` | sdcm/audit.py:118-124 | A log of one begun audit line hangs every query if and only if its last but one character is no quote |
| `AuditLog.HangingLog` | sdcm/audit.py:118-124 | Such a log |
| `AuditLog.EntryIsOneItem` | sdcm/audit.py:120-150 | A printed entry is taken whole and judged by its own fields, whatever text follows |
| `AuditLog.SplitRecovers` | sdcm/audit.py:125-131 | Splitting recovers the fields if and only if no field shows a separator, alone or with its closing quote |
| `AuditLog.RecordReadWhole` | sdcm/audit.py:122-124 | Joining takes exactly the record if and only if no field, opening quote included, has a quote before a newline |
| `AuditLog.JoinStops` | sdcm/audit.py:122-124 | Joining from a line boundary reaches the record's end if and only if no earlier line ends in a quote |
| `AuditLog.InterpretsRecord` | sdcm/audit.py:125-150 | A printed record is interpreted as its own row, raises without a time stamp, or is filtered out by its own category and operation |
| `AuditLog.Judge` | sdcm/audit.py:126-150 | No row ever reports an error |
| `AuditLog.CrashIff` | sdcm/audit.py:126-150 | A record raises if and only if it has nine pieces, the filters accept it, and its time does not parse or its ninth piece is blank |
| `AuditLog.IsAuditLineIff` | sdcm/audit.py:121 | A line starts a record if and only if both markers stand within its first 120 characters |
| `AuditSearch.GetAuditLogRowsFrom` | sdcm/audit.py:112-153 | Searching and then reading gives the rows and the ending of `RowsFrom`; a search that yields nothing raises |
| `AuditSearch.RowsSince` | sdcm/audit.py:118-153 | For printed records, in order of time and whatever follows them: the reader raises if the search yields nothing; otherwise exactly the accepted records at or after the requested second come back, in order and cut to the limit, but for those whose first line the search loses: the log's first line and, if the course of the search says so, the first qualifying one after it |
| `AuditSearch.ReadFrom` | sdcm/audit.py:118-150 | Reading from any line start, also one inside a record, is reading the entries printed from there on |
| `AuditSearch.AllComeBackIff` | sdcm/audit.py:118-153 | All accepted records at or after the second come back if and only if none of them is lost by the search |
| `AuditSearch.FirstRecordIsLost` | sdcm/audit.py:118-119 | A wanted record at the very start of the log never does |
| `DbLogReader.CollectEvents` | sdcm/db_log_reader.py:100-169 | At most one event per line, numbered by its line, in ascending order |
| `DbLogReader.CollectedIff` | sdcm/db_log_reader.py:100-166 | A line of the batch gives an event if and only if it is processed and a system event pattern matches it |
| `DbLogReader.CollectedItem` | sdcm/db_log_reader.py:134-169 | The whole item of that event: its line, its kind, and as its backtrace its own one-line trace, what the lines up to the next event gather, and the frames that the next event's line matches |
| `DbLogReader.TraceRoundTrip` | sdcm/db_log_reader.py:178-182 | A raw backtrace taken apart at its newlines gives back the frames |
| `DbLogReader.TraceOfLastEvent` | sdcm/db_log_reader.py:134-169 | Lines without an event change only the backtrace collected for the last event |
| `DbLogReader.Reader.FilterBacktraces` | sdcm/db_log_reader.py:222-236 | An entry is dropped if and only if it is a backtrace within 20 lines of a preceding other event, which then gets its trace |
| `DbLogReader.Reader.FilterPass` | sdcm/db_log_reader.py:185-187 | Filtering with writes through the last event is one `Pass` over the entries |
| `DbLogReader.PassThenSweep` | sdcm/db_log_reader.py:184-187 | A pass does not change what a full sweep gives |
| `DbLogReader.PassesAreOneSweep` | sdcm/db_log_reader.py:178-187 | As many passes as there are backtraces amount to one sweep |
| `DbLogReader.RepeatedFilterReport` | sdcm/db_log_reader.py:178-187 | The repeated filter drops a backtrace exactly when the nearest preceding other event is within 20 lines, leaves that event with the trace of the last one dropped onto it, and keeps everything else in order |
| `DbLogReader.DroppedIff` | sdcm/db_log_reader.py:222-236 | What it is to be dropped, in full: a backtrace, preceded within 20 lines by an event that is none, with only backtraces between |
| `DbLogReader.Reader.FoldBacktraces` | sdcm/db_log_reader.py:178-187 | The loops over the list end with exactly that report |
| `DbLogReader.Reader.ProcessBatch` | sdcm/db_log_reader.py:91-187 | A whole batch, from lines to the report of its events |
| `DbLogReader.Deliver` | sdcm/db_log_reader.py:189-203 | Events with a trace are queued and the others published, each once and in order; all are delivered if and only if no lookup fails before the last event |
| `LogCursor.Reader.Read` | sdcm/db_log_reader.py:97-176 | The reading loop processes and moves the cursor as `Pass` says |
| `LogCursor.ProcessesAll` | sdcm/db_log_reader.py:100-110 | A pass processes all its lines if and only if each is complete and within the size limit (the first need not be after more than twenty skipped ones), and then numbers them consecutively |
| `LogCursor.ProcessedIff` | sdcm/db_log_reader.py:100-110 | A line a pass reads is processed if and only if it is complete within the size limit or more than twenty lines were skipped just before it |
| `LogCursor.ProcessedLines` | sdcm/db_log_reader.py:100-110 | What is processed of a line is the line itself, cut to the size limit, under its number |
| `LogCursor.PassKeepsCounter` | sdcm/db_log_reader.py:105-110 | The count of skipped lines is carried from one pass to the next |
| `LogCursor.EveryLineOnce` | sdcm/db_log_reader.py:97-176 | In every run in which each pass finds whole lines within the size limit, each passed line was processed once under its own number, apart from one extra reading of the first line per pass that found a one-line log |
| `LogCursor.OnceExactlyWithoutSolo` | sdcm/db_log_reader.py:174-176 | In such a run each line is processed exactly once if and only if no pass found a one-line log |
| `LogCursor.PassCatchesUp` | sdcm/db_log_reader.py:174-176 | In every run a pass reaches the end of the log if and only if the cursor had left the start or the log does not consist of one line |
| `LogCursor.IncompleteLineIsLost` | sdcm/db_log_reader.py:100-176 | A given incomplete or oversized line is processed by the pass that meets it if and only if more than twenty were skipped just before, and passed all the same if and only if the last number is not zero |
| `LogCursor.PassProcessesWhole` | sdcm/db_log_reader.py:98-110 | A complete line read from its start is processed whole if and only if it is within the size limit |
| `LogCursor.ProcessedWholeIff` | sdcm/db_log_reader.py:97-176 | In every run, whatever chunks the log grows by: a complete line the cursor has passed was processed whole if and only if it is within the size limit and no pass that moved the cursor ended inside it |
| `LogCursor.NeverProcessedTwice` | sdcm/db_log_reader.py:97-176 | In every run the passes that move the cursor process no line twice and number upwards; the others process at most the first line |
| `LogCursor.LostLine` | sdcm/db_log_reader.py:105-110 | A run of two appends and two passes that never processes its last line whole |
| `NodeInit.StepKeepsInv` | sdcm/cluster.py:3895-4005 | Every step of worker or coordinator keeps the protocol's invariant |
| `NodeInit.NoStartupBeforeAllSetUp` | sdcm/cluster.py:3976-3988 | In every interleaving no startup begins before every node's setup has reported success |
| `NodeInit.EachNodeInOnePlace` | sdcm/cluster.py:3898-3935 | In every interleaving each started thread is in exactly one of running, queued, collected and failed |
| `NodeInit.MethodNeedsEveryStartup` | sdcm/cluster.py:3981-4005 | The wrapped method runs only if every setup and startup succeeded; a failure names a node that reported one, and any other cause means that none had been taken from the queue |
| `NodeInit.MethodNeedsCheckInTime` | sdcm/cluster.py:3937-3994 | ... and only in a run without a timeout and with a positive up-and-normal check |
| `NodeInit.GoodBringUpCallsMethod` | sdcm/cluster.py:3974-4005 | In every interleaving without a failure, a timeout or a negative check the bring-up does not fail, and once it can go no further the wrapped method has been called |
| `NodeInit.FailureIsExplained` | sdcm/cluster.py:3937-3994 | A failure names the node whose failure was the first to be reported in its phase, or a deadline has passed, or the nodes were not found up and normal |
| `NodeInit.AllAtOnce` | sdcm/cluster.py:3974-3988 | With parallel startup, as in the setup, all threads can be started before any of them ends |
| `NodeInit.SequentialStartup` | sdcm/cluster.py:3984-3988 | Without parallel startup at most the node spawned last is starting |
| `NodeInit.AllCollected` | sdcm/cluster.py:3981-3982 | When as many results as nodes are collected, they are all the nodes, all succeeded and nothing is pending |
| `NodeInit.NoDeadlock` | sdcm/cluster.py:3974-3994 | A state that is not final always has a step besides polling |
| `NodeInit.BringUpIsBounded` | sdcm/cluster.py:3974-4005 | A run makes at most 6n + 5 steps besides empty polls |
| `BinaryUpdate.Select` | sdcm/cluster.py:4133-4140 | Seeds and non-seeds divide the nodes, each listed once and in order |
| `BinaryUpdate.StepKeepsInv` | sdcm/cluster.py:3396-3404 | Every step of the tasks of a phase, and every barrier, keeps the invariant of the phases |
| `BinaryUpdate.NoReplaceWhileRunning` | sdcm/cluster.py:4213-4218 | In every interleaving, with any tasks failing, a binary is touched only while no node of the cluster runs |
| `BinaryUpdate.SeedsStartFirst` | sdcm/cluster.py:4219-4223 | No non-seed comes up before every seed has started successfully |
| `BinaryUpdate.SeedsStopLast` | sdcm/cluster.py:4211-4214 | No seed is stopped before every non-seed is down |
| `BinaryUpdate.OutcomeOfRun` | sdcm/cluster.py:4211-4223 | A raise before the third phase leaves every binary alone; a complete run replaced exactly the requested ones, with all nodes up or all down |
| `BinaryUpdate.RaisedIff` | sdcm/cluster.py:4211-4223 | A finished update has raised if and only if a task failed or the cluster has no seed; one in which every task succeeds goes through all its phases |
| `BinaryUpdate.BarrierRaisesIff` | sdcm/cluster.py:3396-3404 | A phase ends in a raise if and only if one of its tasks failed or the next one asks for seeds that are not there |
| `BinaryUpdate.UpdateIsBounded` | sdcm/cluster.py:4211-4223 | Every update comes to an end, after at most two steps per task and one per phase |
| `BinaryUpdate.EndLeaves` | sdcm/cluster.py:4211-4223 | What the end of a stop or a start says of its node, and that no other node is concerned |
| `BinaryUpdate.BeginLeaves` | sdcm/cluster.py:4211-4223 | From the start of its task a binary counts as touched, and a server to be started as running |
| `BinaryUpdate.NoDeadlock` | sdcm/cluster.py:3396-3404 | An unfinished run can always go on |
| `Coredump.PipelineSafety` | sdcm/coredump.py:131-209 | Over every run, whatever fails: uploaded within completed within found, in progress within found and apart from completed, no repetitions, uploads within the limit, at most three attempts per core, and publications equal to found plus uploaded plus those of cores a failed cycle did not keep, if and only if no listing brought two new cores with one pid |
| `Coredump.GoodInputsSuffice` | sdcm/coredump.py:138-145 | Listings without repeated pids are enough for that |
| `Coredump.PublishedOncePerFindAndUpload` | sdcm/coredump.py:131-209 | In every run in which executable lookups do not fail, publications are exactly found plus uploaded |
| `Coredump.RoundOutcome` | sdcm/coredump.py:164-183 | Exactly when a core is retried, uploaded, completed or dropped, in which order it is listed, and when it costs an attempt |
| `Coredump.FoundStaysDistinctIff` | sdcm/coredump.py:138-145 | New cores keep the found list free of repetitions if and only if their pids are distinct |
| `Coredump.CycleKeeps` | sdcm/coredump.py:131-145 | A cycle, also one that raises, keeps the invariant if and only if the cores it adds have different pids |
| `Coredump.CycleRaisesIff` | sdcm/coredump.py:131-145 | A cycle raises if and only if it finds the node up and the listing or the lookup of a new core fails; otherwise every listed core is found afterwards |
| `Coredump.QuietCycle` | sdcm/coredump.py:131-183 | In a cycle without new cores each core in progress leaves or uses one retry |
| `Coredump.QuietCycleLowersRemaining` | sdcm/coredump.py:153-183 | The retries left over all cores in progress strictly decrease in every such cycle |
| `Coredump.RunIs` | sdcm/coredump.py:114-129 | In any surroundings, before and after the stop: the loop crashes if and only if the cycles that raised in a row are ten, exits if and only if the stop flag is set and nothing is in progress, goes on otherwise, and does nothing but its cycles |
| `Coredump.NeverExitsEarly` | sdcm/coredump.py:114-120 | The loop does not exit before it is told to stop |
| `Coredump.TenInARow` | sdcm/coredump.py:121-129 | What it is for cycles to raise in a row, cycle by cycle |
| `Coredump.DrainsAfterStop` | sdcm/coredump.py:114-136 | Once stopped, with no new cores, the loop is over by the fourth cycle that finds the node up, however many find it down, whatever fails to upload and however many cycles had raised before; it exits normally unless the listings raise often enough for ten exceptions |
| `Coredump.DrainsWithinFourCycles` | sdcm/coredump.py:114-136 | With the node up throughout that is within four cycles, normally if fewer than six cycles had raised before |
| `Coredump.FourCyclesAreNeeded` | sdcm/coredump.py:114-183 | While every upload raises, a core not tried yet keeps the stopped loop running if and only if at most three cycles have found the node up |
| `Coredump.NeverDrainsWhileDown` | sdcm/coredump.py:114-133 | With no cycle that finds the node up and cores in progress the stopped loop never ends |
| `Coredump.ExtractFacts` | sdcm/coredump.py:195-209 | Only cores not found before are extracted, distinct if the listing is |
| `Coredump.ExtractIs` | sdcm/coredump.py:195-209 | Exactly the new cores before the first one that cannot be looked up are extracted, in order, and it raises if there is one |
| `Coredump.PushOutcome` | sdcm/coredump.py:138-145 | A new core is found, and in progress if and only if it is no bash and the limit is not reached |
| `Coredump.QueueIs` | sdcm/coredump.py:138-145 | The queue takes the new cores in order, without those of a bash |
| `Coredump.CoredumpThread.ProcessCoredumps` | sdcm/coredump.py:153-183 | The loop over a copy of the list is `ProcessAll` |
| `Coredump.CoredumpThread.ProcessCore` | sdcm/coredump.py:164-183 | One round of it is `ProcessOne` |
| `Coredump.CoredumpThread.ExtractInfo` | sdcm/coredump.py:195-209 | The extraction loop is `Extract`, with one publication per new core |
| `Coredump.CoredumpThread.PushNewCores` | sdcm/coredump.py:138-145 | New cores are found, and queued unless they are a bash or the limit is reached |
| `Coredump.CoredumpThread.MainCycle` | sdcm/coredump.py:131-136 | One cycle and whether it raised, as `Cycle` says |
| `Coredump.CoredumpThread.RunThread` | sdcm/coredump.py:114-129 | The thread's loop is `Run`: it exits, goes on, or crashes on the tenth exception in a row |
| `GossipInfo.GetGossipInfo` | sdcm/cluster.py:2810-2836 | The token loop gives the map, or the exception, of `Fold` |
| `GossipInfo.BlockFold` | sdcm/cluster.py:2813-2834 | Whatever data centre is left over from before, a block adds exactly one record: its own schema, address and status, with its own data centre if that comes in time and the left-over one otherwise; only its own late data centre is left over from it |
| `GossipInfo.ParseIsExact` | sdcm/cluster.py:2806-2836 | The result holds exactly the cluster's nodes among the blocks, each with the schema and status of its own last block and with that block's data centre or, if that is missing or late, the late one of the block before |
| `GossipInfo.OwnDcsExactly` | sdcm/cluster.py:2806-2836 | Every known node has its own block's data centre if and only if each last block about one names it in time or agrees with what the block before leaves over |
| `GossipInfo.LeakingPrintout` | sdcm/cluster.py:2813-2834 | A printout of two blocks that gives the first node's data centre to the second |
| `GossipInfo.TokenRoundTrip` | sdcm/cluster.py:2814-2822 | A printed token gives back its value if and only if the value does not contain the prefix again |
| `GossipInfo.LabelledKinds` | sdcm/cluster.py:2813-2822 | Each label makes its kind of token, whatever follows it |
| `GossipInfo.ValuesReadBack` | sdcm/cluster.py:2819-2822 | A printed status or data centre is read back up to its first comma |
| `GossipInfo.WholeValuesReadBack` | sdcm/cluster.py:2814-2818 | A printed schema or address is read back whole |
| `GossipInfo.RaisesIff` | sdcm/cluster.py:2810-2836 | The parser raises if and only if some address token is malformed, wherever it stands |
| `GossipInfo.CommaCut` | sdcm/cluster.py:2819-2822 | A status or data centre ends at its first comma |
| `CommitLogCheck.MaxExceedTime` | sdcm/commit_log_check_thread.py:183-200 | The result is the largest distance between two samples of one line; it raises if and only if the response or a line is empty |
| `CommitLogCheck.CheckWindow` | sdcm/commit_log_check_thread.py:202-209 | An event is published if and only if one shard has two samples over the limit in the window more than 60 seconds apart |
| `CommitLogCheck.RunThread` | sdcm/commit_log_check_thread.py:163-181 | The windows tile the time from the start without a gap; each round raises an event if and only if its query is answered and shows an overflow in what is known at the time of the query; the thread ends with an event of its own at the first round that raises |
| `CommitLogCheck.LongOverflowOfSamples` | sdcm/commit_log_check_thread.py:163-209 | A shard over the limit at every step of more than twice the allowed time, before the last query, is detected wherever the boundaries fall if no query raises and those it concerns are answered |
| `CommitLogCheck.LongOverflow` | sdcm/commit_log_check_thread.py:163-209 | In continuous time 122 seconds inside the windows and before the last query, which a stop can bring forward, are always detected under the same condition |
| `CommitLogCheck.ShorterOverflowCanHide` | sdcm/commit_log_check_thread.py:163-209 | Any shorter overflow can lie where it is not, whenever the queries are made |
| `CommitLogCheck.SortPermutes` | sdcm/commit_log_check_thread.py:195-200 | Sorting is a permutation |
| `Racks.NodesPerAz` | sdcm/cluster.py:3273-3288 | The round-robin loop, in place, gives the quotient and remainder distribution |
| `Racks.DistributionIsFair` | sdcm/cluster_aws.py:397-401 | The shares add up to the count and differ by at most one |
| `Racks.LabelTotalsMatch` | sdcm/cluster_aws.py:406-414 | Every rack is the label of as many nodes as it has instances |
| `Racks.LabelsMatchExactly` | sdcm/cluster_aws.py:411-414 | Each node has the label of its own instance's rack if and only if there is one rack or no rack gets two nodes |
| `AwsCluster.SpotRequests` | sdcm/cluster_aws.py:185-203 | The fewest requests within the limit, none empty, adding up to the count |
| `AwsCluster.Cluster.AddNodes` | sdcm/cluster_aws.py:388-424 | The new nodes are the instances found or created, numbered on, and labelled with the named rack or with the racks in turn; an add to a named rack keeps at most two on-demand nodes and in a non-empty cluster restores exactly two, unless instances are found provisioned on a rack without nodes, which are then all taken; the last `count` nodes are returned |
| `AwsCluster.Cluster.CreateOrFindInstances` | sdcm/cluster_aws.py:372-410 | The racks' instances one after the other, each computed from the cluster before the call; all newly provisioned if no rack without nodes has any |
| `AwsCluster.AcquiredInOrder` | sdcm/cluster_aws.py:406-410 | The instances of a rack stand after those of the racks before it |
| `AwsCluster.FoundAreTaken` | sdcm/cluster_aws.py:372-386 | On a named rack without nodes the instances found are taken, however many were asked for |
| `AwsCluster.Cluster.AppendNodes` | sdcm/cluster_aws.py:411-421 | One node per instance, with the next index and its label |
| `AwsCluster.Cluster.TerminateNode` | sdcm/cluster.py:3476-3491 | Afterwards the node is not in the list; if it was, exactly it has left and all others keep their order, and if it was not, nothing changes; on-demand nodes never increase, and indexes stay distinct |
| `AwsCluster.MixedCounts` | sdcm/cluster_aws.py:291-330 | How many instances a mixed request creates, how many of them on-demand, and that the spot ones come first |
| `AwsCluster.NamedAdd` | sdcm/cluster_aws.py:291-330 | An add to a named rack creates the larger of the count and the missing on-demand nodes |
| `AwsCluster.MoreThanAskedIff` | sdcm/cluster_aws.py:291-330 | That is more than asked for if and only if the cluster is not empty and count and on-demand nodes together are fewer than two |
| `AwsCluster.UnknownRackAdd` | sdcm/cluster_aws.py:402-408 | A rack that does not exist adds nothing |
| `AwsCluster.NeverMoreThanTwo` | sdcm/cluster_aws.py:291-330 | Over every run of named adds that create instances and of terminations there are at most two on-demand nodes |
| `AwsCluster.UnnamedAddToCluster` | sdcm/cluster_aws.py:397-410 | Without a named rack the limit is kept in a non-empty cluster if and only if nothing is missing, one node is asked for or there is one rack |
| `AwsCluster.UnnamedAddToEmpty` | sdcm/cluster_aws.py:397-410 | ... and in an empty one if and only if there is one rack or at most two nodes more than racks |
| `AwsCluster.FourOnDemandNodes` | sdcm/cluster_aws.py:397-410 | An add of two nodes to one spot node that ends with four on-demand nodes |
| `DockerCluster.NewIndexesAre` | sdcm/cluster_docker.py:264-267 | In ascending order exactly the free indexes below len + count; one more than asked for per used index at or above that |
| `DockerCluster.AsManyAsAsked` | sdcm/cluster_docker.py:264-267 | Exactly `count` indexes if and only if no used index is at or above len + count |
| `DockerCluster.Cluster.CreateNodes` | sdcm/cluster_docker.py:269-276 | The loop appends exactly those, indexes stay distinct, and the first node exists whenever it is needed |
| `DockerCluster.IndexesStayDistinct` | sdcm/cluster_docker.py:264-276 | Over every run of adds and removals indexes are pairwise distinct |
| `DockerCluster.SurplusIsReachable` | sdcm/cluster_docker.py:264-267 | After an add of three and two removals, a request for one node creates two |
| `Keystore.CalculateS3Etag` | sdcm/keystore.py:124-139 | The chunk loop computes the tag of `Etag` |
| `Keystore.TagShape` | sdcm/keystore.py:134-139 | The tag is quoted, and has the digest of the only chunk, or that of all the digests and the number of chunks |
| `Keystore.HexReadsBack` | sdcm/keystore.py:134-139 | The two digits of each byte are its value in base sixteen, the high one first |
| `Keystore.DecimalReadsBack` | sdcm/keystore.py:137-139 | The number of chunks read as a decimal number is that number |
| `Keystore.ChunksCover` | sdcm/keystore.py:128-132 | The chunks are the file, for every chunk size but zero |
| `Keystore.ChunkSizes` | sdcm/keystore.py:128-132 | Every chunk but the last has exactly the chunk size, and none is empty |
| `Keystore.TagParts` | sdcm/keystore.py:134-139 | Equal tags mean the same number of chunks and the same final digest |
| `Keystore.SameTagSameFile` | sdcm/keystore.py:124-139 | Files with the same tag are equal, or two different strings hashed on the way have the same digest |
| `Keystore.ZeroSizeTagsAgree` | sdcm/keystore.py:124-139 | With chunk size zero all files have the same tag |
| `Keystore.LocalStore.GetObjIfNeeded` | sdcm/keystore.py:141-156 | The file is downloaded, with its permissions, if and only if it is missing or its tag differs; afterwards it equals the object unless the hash collides |
| `Keystore.LocalStore.Sync` | sdcm/keystore.py:158-162 | Every file whose fetch is not cancelled is the object or has its tag, and is the object unless the hash collides if the tag is its own; none is cancelled unless a key before it is missing; a file changes only to the object of a key asked for, with the given permissions; it succeeds if and only if there are keys and all exist |

## Left out

- Remote commands, system services, package installation and cloud clients: no visible semantics; their outcomes are parameters or steps.
- The command line, stress threads, statistics, screenshots and event back ends: only easy or approximate claims.
- MD5, date parsing, address normalisation, regular expressions and UTF-8: parameters, or one byte per character.
- LogSearch.OpenSystemLog: the debug call after the loop (sdcm/cluster.py:1536-1537) is not modelled; it raises when the last line read is shorter than 101 characters, and when every probe runs into the end of the log (an empty or one-line log), because no time stamp has been read then.
- AuditLog.GetAuditLogRows: white space is the ASCII blank, tab, newline and carriage return, and newline translation of the file is not modelled; the event date, a part of the time, is not a field of its own.
- AuditSearch.RowsSince: for records none of whose later lines looks like the start of another one; such a line would be read as a record if the search ended inside it. The log has no accepted record without a time stamp.
- AuditLog.GarbledIsPassedOver: for records after whose end no line looks like the start of another one.
- DbLogReader.Reader.FilterBacktraces: an event object is known by its line number, unique in a batch; `dont_publish` on a dropped event has no other effect here.
- DbLogReader.CollectEvents: continuous events, the build id and logging of lines are not modelled; an exception while processing a line is a skipped line.
- NodeInit.StepKeepsInv: severity rules around the bring-up, shard and rack reporting and the update calls before it are not modelled.
- BinaryUpdate.StepKeepsInv: the size of the thread pool is not modelled; tasks may be picked up in any order. Which nodes are seeds is fixed during the update.
- Coredump.PipelineSafety: two cores listed under one pid are one core here, with one retry counter; writing the coredump log file is taken not to raise.
- GossipInfo.GetGossipInfo: splitting the output into tokens, retries and the log messages about unknown nodes are not modelled.
- CommitLogCheck.RunThread: the clock and the stop flag appear as the number of rounds and the times of their queries.
- The check for free segments of the commit log: it only asks whether a response is empty.
- AwsCluster.Cluster.AddNodes: the reuse of a whole cluster, simulated racks, several data centres, loader and monitor sets and refused requests are not modelled.
- Keystore.LocalStore.Sync: keys are fetched one after the other, and which are cancelled is a parameter; the threads of the original work on separate files. Only a missing object makes a fetch fail.
- AwsCluster.NeverMoreThanTwo: adds that take instances found provisioned are not among the steps; they take whatever is there (`AwsCluster.FoundAreTaken`).
- The Azure, GCE, bare metal and Kubernetes clusters: thin variants of the node loops here.
