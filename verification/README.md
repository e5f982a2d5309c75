# Verified models of the log collector and its calendar

This project models, in Dafny, the algorithmic core of the Garner log collector
and of the web application's calendar widget, and proves what they are relied on
for. `dafny verify dfyconfig.toml` checks all of it.

| part | modules | what is proved |
|---|---|---|
| intrusive hash table | `Bits`, `Handles`, `LoadPolicy`, `Redistribution`, `Buckets`, `StableMerge`, `ListSort`, `Uthash`, `Fsck`, `TableRuns` | every run of adds, deletes, expansions and sorts keeps both linked structures intact and behaves as a dictionary; the doubling policy bounds the load; the list sort is stable |
| device-discovery gate | `DeviceGate` | at most one alert per device, the same treatment ever after, through the real table from start-up on |
| PostgreSQL batching | `PgServer`, `PgBatch` | conservation of acknowledged rows, bounded loss, table rotation, against a server that can fail any statement |
| PostgreSQL trigger | `PgTrigger` | one query at a time, sends spaced out |
| key/value parser, key map | `KeyValue`, `KeyMap` | parsing in place undoes printing; sorting and binary search agree with a linear scan |
| archive writer | `Archive` | record extents tile the file, offsets index it, open files stay below the limit |
| calendar | `Civil`, `IsoWeek`, `ScriptDate`, `CalendarWidget`, `Options`, `DateFormat`, `DateRoundTrip`, `DateReading` | ISO week numbers, the 42-cell grid, clamped navigation over whole runs, parsing undoes printing, and what any other text is read as |

Code that changes state is modelled by classes and methods that change state,
each proved against a specification on sequences, sets or numbers; the theorems
are about those specifications and about whole runs.

## How the models read the code

- Hash table: elements are objects with the embedded handle's fields (`prev`, `next`,
  `hhPrev`, `hhNext`, `hashv`). `app` and `chains` are ghost fields: the list and the
  chains as sequences. The hash is an arbitrary function of the key; counters are
  unbounded. Scratch fields of the table (`thh`, `hh_nxt`, `p`, `q`, `key`, `keylen`, and
  `ideal_chain_maxlen` where the integrity check borrows it) are locals. A null head
  means the table has been freed.
- Comparator: `le(a, b)` stands for `cmpfcn(a, b) <= 0`.
- PostgreSQL: each statement is a step relation over a server state; the client methods
  pick any outcome the relation allows. Outside a transaction a statement fails
  only when the connection is lost; a failed statement aborts the open transaction; END
  of an aborted transaction and a lost connection discard the batch. A connection that
  breaks during END may have committed. Rows are numbered in the order they are sent. What PQstatus and
  PQsetnonblocking answer are arguments.
- Trigger: `event_count` wraps at 2^32, as in the code; what the network answers is an argument of each clock event.
- Key/value parser: `n` is the length of the string, and `Overrun` is the outcome where the
  scan would run past the terminating NUL (an escape before it, or an unclosed quote).
  The handler is an arbitrary function; -2 drops the event.
- Archive: the environment chooses file names, the outcome of open, rename and of every
  write. A session is one opening of a file.
- Dates: a day number (0 is January 1 of year 1) and a minute of the day. `new Date`
  reads the years 0 to 99 as 1900 to 1999; setters run over into neighbouring months.
  The zone's offset is an arbitrary function of the day for the week number.

## What the proofs found

- A lookup survives an expansion exactly when at most one element has its key
  (`Buckets.LookupStable`): an expansion swaps the first and the last element of a key. When neither
  start-up file repeats a line, an id listed in both therefore changes its status whenever the
  table doubles (`DeviceGate.ConflictingFiles`; `DeviceGate.TurnsRegistered` is an input at which it does). With no id in both
  files the gate's guarantees hold for its whole life (`DeviceGate.GateRun`).
- A failed `PREPARE` leaves an aborted transaction on a live connection
  (`PgServer.PreparationCanGetStuck`). If the table came from the queue, `TABLE_CREATED` is set and the next insert
  ends the transaction. If the table was just created the client is stuck: the next insert
  fails and clears the table name, and from then on neither inserts nor the clock, which only
  resets a connection that has a table name, acknowledge anything or leave that
  state until an insert finds the connection broken and attempts a new one (`Stuck`, `Wedged` and
  `Stalled` in `PgBatch`, with `DataInsert`, `ClockEvent` and `Run`).
- `rotate_archievefile` returns before closing the file when the path does not fit its
  buffer, although its comment calls that unreachable; so the bound on open files holds when
  the path fits (`Archive.Archiver.Rotate` closes exactly then; `Archive.LongPathStaysOpen` is an input at which the bound fails).
- `getWeekNumber` is right for whole years exactly outside 0 to 99
  (`ScriptDate.WeekNumbersOfYear`); the number shown beside a grid row fits its seven days exactly
  when rows start on Monday (`CalendarWidget.RowNumbers`).
- A field that is not a number passes `parseDate`'s test, so the calendar then holds an invalid date, from which no
  navigation button leads away (`DateFormat.ParseDate`, `CalendarWidget.Calendar.Navigate`).
- `print` leaves `%k` in place at midnight, because a number 0 counts as missing
  (`DateRoundTrip.MidnightHour`); `parseDate` recovers a printed date exactly from year 100 on.

## Model

| member | source | states |
|---|---|---|
| `Uthash.HashTable.Add` | garner/plugins/InputPlugin/fwstub/uthash.h:109-147 | adding appends to the insertion-order list and pushes on exactly one chain; chains after the add are given exactly (doubled or not); after a doubling the ideal chain length is ceil(num_items/num_buckets), between 1 and 10, and nonideal_items, the multipliers, ineff_expands and noexpand have their exact values; otherwise the multipliers, ineff_expands and noexpand are as they were, and zero in a new table; every invariant is kept |
| `Uthash.HashTable.AddToBucket` | garner/plugins/InputPlugin/fwstub/uthash.h:398-407 | push, count, and a doubling exactly when the count reaches (expand_mult+1)*10 and expansion is not inhibited; the load bound is kept |
| `Uthash.HashTable.ExpandBuckets` | garner/plugins/InputPlugin/fwstub/uthash.h:453-493 | every new chain is the reversed selection of its old chain; counts, multipliers, nonideal_items, ineff_expands and the noexpand cut-off take their exact values |
| `Uthash.HashTable.Redistribute` | garner/plugins/InputPlugin/fwstub/uthash.h:453-486 | doubling neither loses nor duplicates an element and leaves num_buckets a power of two |
| `Uthash.HashTable.InitTable` | garner/plugins/InputPlugin/fwstub/uthash.h:116-129 | a new table has 32 empty buckets, no multiplier and expansion allowed |
| `Uthash.HashTable.AppendToList` | garner/plugins/InputPlugin/fwstub/uthash.h:111-135 | next, prev, head and tail after appending one element |
| `Uthash.HashTable.Find` | garner/plugins/InputPlugin/fwstub/uthash.h:90-104 | a lookup finds an element with the key exactly when a scan of the whole list would; with unique keys it is the very element the scan finds; in any case it is the first of its chain |
| `Uthash.HashTable.Delete` | garner/plugins/InputPlugin/fwstub/uthash.h:163-195 | deleting removes exactly that element from the list and from its chain, also when it is the head or the tail; deleting the last element leaves no table |
| `Uthash.HashTable.DeleteFromList` | garner/plugins/InputPlugin/fwstub/uthash.h:170-186 | list links, head and tail after unlinking one element |
| `Uthash.HashTable.DeleteFromBucket` | garner/plugins/InputPlugin/fwstub/uthash.h:187-192 | the chain, the bucket count and num_items after unlinking one element; the load bound is kept |
| `Uthash.HashTable.DeleteAll` | garner/plugins/OutputPlugin/libdevdiscovery/devid_hash.c:159-167 | deleting the head until there is none terminates and empties the table |
| `Uthash.HashTable.Sort` | garner/plugins/InputPlugin/fwstub/uthash.h:500-584 | for every total preorder the list becomes a stable sorted permutation of itself, relinked both ways with the right head and tail; the chains are untouched |
| `Uthash.HashTable.LoadIsBounded` | garner/plugins/InputPlugin/fwstub/uthash.h:398-407 | while expansion is allowed every chain has at most 10*(expand_mult+1) elements, the multipliers plus the buckets at their limit number at most num_buckets, and num_items <= 19*num_buckets |
| `Fsck.Check` | garner/plugins/InputPlugin/fwstub/uthash.h:216-275 | on any table that can be walked forwards the integrity check succeeds exactly when backward links, bucket counts, the chain total and the list length are all in order |
| `Fsck.CheckChain` | garner/plugins/InputPlugin/fwstub/uthash.h:226-240 | counts a chain and accepts exactly the chains whose hh_prev links are right |
| `Fsck.CheckList` | garner/plugins/InputPlugin/fwstub/uthash.h:253-269 | counts the list and accepts exactly the lists whose prev links are right |
| `Fsck.ValidPasses` | garner/plugins/InputPlugin/fwstub/uthash.h:216-275 | every table the operations can reach passes the integrity check |
| `Fsck.TotalIsSum` | garner/plugins/InputPlugin/fwstub/uthash.h:216-246 | the chain lengths add up to the bucket counts |
| `TableRuns.Run` | garner/plugins/InputPlugin/fwstub/uthash.h:90-195 | over any run of plain adds, guarded adds, deletes and sorts, from the empty table, for any hash function, the list goes through exactly the steps the run describes and the integrity check passes after each; while no key is added twice the table holds exactly the dictionary of the run |
| `TableRuns.RunFromNew` | garner/plugins/InputPlugin/fwstub/uthash.h:90-195 | the same on a table of its own: without duplicate adds the entries are those of the dictionary, each once |
| `TableRuns.Perform` | garner/plugins/InputPlugin/fwstub/uthash.h:90-195 | one operation is one step on the list of entries (a plain add keeps duplicates, a delete removes one entry of the key, a sort is stable), and on the dictionary unless it adds a key twice |
| `TableRuns.Lookup` | garner/plugins/InputPlugin/fwstub/uthash.h:90-104 | a lookup finds an entry of the key exactly when there is one; in a table that implements a dictionary it is the dictionary's lookup |
| `Buckets.LookupAfterDoubling` | garner/plugins/InputPlugin/fwstub/uthash.h:467-482 | a doubling swaps the first and the last element of every key, so a lookup then finds what was the last |
| `Buckets.LookupStable` | garner/plugins/InputPlugin/fwstub/uthash.h:467-482 | a lookup answers the same before and after a doubling exactly when at most one element of the list has the key |
| `Buckets.DuplicatesFlip` | garner/plugins/InputPlugin/fwstub/uthash.h:467-482 | two elements of one key: the answer before a doubling and the other answer after it |
| `Buckets.OnceInChain` | garner/plugins/InputPlugin/fwstub/uthash.h:149-149 | a key has a duplicate in the list exactly when it has one in its chain |
| `Buckets.ChainScanAgrees` | garner/plugins/InputPlugin/fwstub/uthash.h:387-395 | scanning the one chain the hash selects agrees with scanning the whole list |
| `Buckets.FindInChain` | garner/plugins/InputPlugin/fwstub/uthash.h:387-395 | walking the links of a chain finds its first element with the key |
| `Buckets.ToBucket` | garner/plugins/InputPlugin/fwstub/uthash.h:149-149 | masking with num_buckets-1 selects the bucket of the key |
| `Buckets.PushOnChain` | garner/plugins/InputPlugin/fwstub/uthash.h:398-403 | the element becomes the head of the chain its hash selects, and of no other |
| `Buckets.IdealChainLength` | garner/plugins/InputPlugin/fwstub/uthash.h:459-461 | the shift-and-mask form equals ceil(num_items / (2*num_buckets)) |
| `Buckets.MoveElement` | garner/plugins/InputPlugin/fwstub/uthash.h:467-482 | moving one element keeps the new chains, their counts, multipliers and the excess tally right |
| `Buckets.MoveChain` | garner/plugins/InputPlugin/fwstub/uthash.h:465-484 | moving a chain puts its elements, reversed, at the front of the new chains their hashes select |
| `Buckets.FillNewBuckets` | garner/plugins/InputPlugin/fwstub/uthash.h:453-486 | after the loop each new bucket i holds the elements of old bucket i & (n-1) whose hash selects i, reversed |
| `Buckets.UnlinkFromChain` | garner/plugins/InputPlugin/fwstub/uthash.h:410-420 | the chain without the element, all other chains as they were |
| `Buckets.UnlinkFromList` | garner/plugins/InputPlugin/fwstub/uthash.h:170-186 | the list without the element, relinked, with its new head and tail |
| `Redistribution.DoublingKeepsPartition` | garner/plugins/InputPlugin/fwstub/uthash.h:422-486 | the doubled chains partition the same elements |
| `Redistribution.PushKeepsPartition` | garner/plugins/InputPlugin/fwstub/uthash.h:398-403 | pushing a new element keeps the partition |
| `Redistribution.RemovalKeepsPartition` | garner/plugins/InputPlugin/fwstub/uthash.h:410-420 | removing an element keeps the partition of the others |
| `Redistribution.SelectedElsewhere` | garner/plugins/InputPlugin/fwstub/uthash.h:467-471 | an old bucket sends nothing to a new bucket that does not fold back onto it |
| `LoadPolicy.ExpansionRestoresBound` | garner/plugins/InputPlugin/fwstub/uthash.h:453-486 | an expansion with ideal length at most 10 re-establishes the load bound, whatever the distribution |
| `LoadPolicy.IdealAtExpansion` | garner/plugins/InputPlugin/fwstub/uthash.h:398-407 | under the load bound the add that triggers an expansion leaves 1 <= ideal_chain_maxlen <= 10 |
| `LoadPolicy.LoadFactor` | garner/plugins/InputPlugin/fwstub/uthash.h:398-407 | the load bound implies at most 19 elements per bucket |
| `LoadPolicy.MultipliersWithinCounts` | garner/plugins/InputPlugin/fwstub/uthash.h:472-476 | the multipliers set by an expansion are paid for by the elements |
| `LoadPolicy.GrowKeepsBound` | garner/plugins/InputPlugin/fwstub/uthash.h:398-407 | an add below the limit keeps the load bound |
| `LoadPolicy.ShrinkKeepsBound` | garner/plugins/InputPlugin/fwstub/uthash.h:410-420 | a delete keeps the load bound |
| `Bits.MaskIsRemainder` | garner/plugins/InputPlugin/fwstub/uthash.h:149-149 | x & (2^k-1) is the remainder modulo 2^k |
| `Bits.ShiftIsQuotient` | garner/plugins/InputPlugin/fwstub/uthash.h:459-461 | x >> k is the quotient by 2^k |
| `Bits.CeilDivLeast` | garner/plugins/InputPlugin/fwstub/uthash.h:434-451 | the ideal chain length is the least length that fits all elements |
| `ListSort.SortList` | garner/plugins/InputPlugin/fwstub/uthash.h:500-584 | the loop with doubling insize ends and links the list in the order of the bottom-up merge sort |
| `ListSort.MergeOnce` | garner/plugins/InputPlugin/fwstub/uthash.h:505-575 | one pass merges neighbouring runs and counts its merges |
| `ListSort.MergeRuns` | garner/plugins/InputPlugin/fwstub/uthash.h:511-573 | one merge relinks two runs in place into their stable merge |
| `ListSort.StepOver` | garner/plugins/InputPlugin/fwstub/uthash.h:513-524 | stepping over a run stops at insize elements or at the end |
| `StableMerge.SortIsStable` | garner/plugins/InputPlugin/fwstub/uthash.h:500-584 | the bottom-up merge sort is a sorted permutation that keeps equivalent elements in order |
| `StableMerge.PassSortsRuns` | garner/plugins/InputPlugin/fwstub/uthash.h:511-573 | a pass over sorted runs of k leaves sorted runs of 2k |
| `StableMerge.MergeStable` | garner/plugins/InputPlugin/fwstub/uthash.h:526-572 | on ties the first run goes first, so no equivalent element is overtaken |
| `StableMerge.MergeSorted` | garner/plugins/InputPlugin/fwstub/uthash.h:526-572 | merging sorted runs gives a sorted run |
| `DeviceGate.AtMostOneAlert` | garner/plugins/OutputPlugin/libdevdiscovery/devdiscovery.c:409-465 | over any run, events that arrive with another action raise at most one alert per device id |
| `DeviceGate.AfterAlert` | garner/plugins/OutputPlugin/libdevdiscovery/devdiscovery.c:409-465 | after the alert of an id any two later events of it are both left as they are or both dropped |
| `DeviceGate.SameTreatmentForEver` | garner/plugins/OutputPlugin/libdevdiscovery/devdiscovery.c:425-436 | once an id is known its status never changes |
| `DeviceGate.KnownGrows` | garner/plugins/OutputPlugin/libdevdiscovery/devdiscovery.c:409-465 | ids are only ever added, never changed |
| `DeviceGate.KnownExactly` | garner/plugins/OutputPlugin/libdevdiscovery/devdiscovery.c:420-455 | an id is known exactly when the files list it or an event of it has come |
| `DeviceGate.FateOfNewDevice` | garner/plugins/OutputPlugin/libdevdiscovery/devdiscovery.c:437-455 | the first event of a new device is an alert, later ones are accepted exactly if it had an id and came under the name of a registered device, and dropped otherwise |
| `DeviceGate.StatusOfNewDevice` | garner/plugins/OutputPlugin/libdevdiscovery/devdiscovery.c:442-455 | the status that the first event of a new device settles for ever |
| `DeviceGate.FateOfKnownDevice` | garner/plugins/OutputPlugin/libdevdiscovery/devdiscovery.c:425-436 | events of a device known from the start are accepted if it is registered and dropped otherwise |
| `DeviceGate.Output` | garner/plugins/OutputPlugin/libdevdiscovery/devdiscovery.c:389-469 | a batch is rewritten in place exactly as the run prescribes, through the real table and its expansions |
| `DeviceGate.GateRun` | garner/plugins/OutputPlugin/libdevdiscovery/devdiscovery.c:242-469 | a new table is loaded from both start-up files and processes any sequence of batches: events that are alerts already get the id "new"; events of listed devices are accepted or dropped by their file; the first event of any other device is an alert, and its later events are accepted exactly if the first one had an id and came under the name of a registered device |
| `DeviceGate.GateEvent` | garner/plugins/OutputPlugin/libdevdiscovery/devdiscovery.c:409-465 | one event, through the table, is one step of the gate |
| `DeviceGate.BatchesCompose` | garner/plugins/OutputPlugin/libdevdiscovery/devdiscovery.c:389-469 | what is known after batch upon batch is what is known after one run over all events |
| `DeviceGate.ResultsCompose` | garner/plugins/OutputPlugin/libdevdiscovery/devdiscovery.c:389-469 | the rewritten events of batch upon batch are those of one run over all events |
| `DeviceGate.AddDevids` | garner/plugins/OutputPlugin/libdevdiscovery/devdiscovery.c:185-240 | every line of a start-up file becomes an entry, also for an id already there; if no id gets a second status, what is known grows by the file |
| `DeviceGate.LoadDevids` | garner/plugins/OutputPlugin/libdevdiscovery/devdiscovery.c:242-263 | after start-up there is one entry for every line of the two files; with no id in both, what is known is exactly what the files say |
| `DeviceGate.BothFilesTwoStatuses` | garner/plugins/OutputPlugin/libdevdiscovery/devdiscovery.c:242-263 | when no file repeats a line, an id in both has its two statuses first and last in its chain, however often the table doubled while it was loaded |
| `DeviceGate.LoadConflicting` | garner/plugins/OutputPlugin/libdevdiscovery/devdiscovery.c:242-263 | loading two files that share an id gives it one of its two statuses |
| `DeviceGate.ConflictingFiles` | garner/plugins/OutputPlugin/libdevdiscovery/devdiscovery.c:242-263 | such an id changes its status at every doubling that later adds cause, and at no other time |
| `DeviceGate.TurnsRegistered` | garner/plugins/OutputPlugin/libdevdiscovery/devid_hash.c:42-108 | two one-line files with one id and eight more ids of its bucket: the id reads as unregistered until the last add makes it registered |
| `DeviceGate.StatusAroundAdd` | garner/plugins/OutputPlugin/libdevdiscovery/devid_hash.c:42-108 | the status of an id around the add of another one: that of its last entry if the add doubles the table, unchanged otherwise |
| `DeviceGate.DoublesAtTen` | garner/plugins/InputPlugin/fwstub/uthash.h:404-405 | without multipliers the table doubles exactly at the add that makes a chain ten long |
| `DeviceGate.OtherKeyAdded` | garner/plugins/InputPlugin/fwstub/uthash.h:398-407 | adding another key keeps the first and the last entry of an id, and swaps them when the table doubles |
| `DeviceGate.DevidAdd` | garner/plugins/OutputPlugin/libdevdiscovery/devid_hash.c:42-79 | an entry is appended whether or not the id is there; what is known grows by the id if that gives it no second status |
| `DeviceGate.DevidGetStatus` | garner/plugins/OutputPlugin/libdevdiscovery/devid_hash.c:81-108 | the status of the entry the lookup finds, not-found otherwise; the known status while all entries of an id agree, before and after expansions |
| `DeviceGate.DevidDelete` | garner/plugins/OutputPlugin/libdevdiscovery/devid_hash.c:110-142 | removes one entry of the id if there is one and nothing otherwise |
| `PgBatch.Client.Run` | garner/plugins/OutputPlugin/libpostgres/oppostgres.c:394-459 | over any run and any server: acknowledged rows = committed + in the open batch + rolled back, and the rolled back ones are at most (max_uncommitted_records-1) per rollback; from a wedged or stalled state nothing is acknowledged and the state is kept until a new connection is attempted |
| `PgBatch.Client.DataInsert` | garner/plugins/OutputPlugin/libpostgres/postgres_db.c:1031-1144 | on return 0 exactly the new row is acknowledged; while the table is kept the row joins the open batch and nothing is committed, unless it makes uncommitted_record_count reach max_uncommitted_records, and then the whole batch is committed and the count starts again; record_count is the number of rows acknowledged since the table was prepared, and the table is kept exactly below max_records; a connection of good status is kept and any other replaced, in at most two rounds; after a failed insert the connection is kept exactly after a time-out; whatever it returns it loses fewer than max_uncommitted_records acknowledged rows; a failed preparation leaves the client stuck exactly without a table from the queue, a stuck client fails and becomes wedged until its connection is found broken, and with TABLE_CREATED set an aborted transaction is left behind |
| `PgBatch.LossOfCall` | garner/plugins/OutputPlugin/libpostgres/postgres_db.c:1040-1143 | a call that replaces the connection and then stores a row loses the old batch or the new one, not both |
| `PgBatch.Client.EnsureConnection` | garner/plugins/OutputPlugin/libpostgres/postgres_db.c:1040-1063 | a connection of good status is kept as it is; otherwise one new connection is attempted, which has no table, no transaction and no prepared statement; two rounds exactly when a connection was replaced |
| `PgBatch.Client.EnsureTable` | garner/plugins/OutputPlugin/libpostgres/postgres_db.c:1040-1071 | a cleared TABLE_CREATED leads to a newly prepared table |
| `PgBatch.Client.StoreRow` | garner/plugins/OutputPlugin/libpostgres/postgres_db.c:1088-1134 | an accepted row joins the batch, or completes it and is committed with it; after a refused one the connection is kept exactly after a time-out |
| `PgBatch.Client.Acknowledge` | garner/plugins/OutputPlugin/libpostgres/postgres_db.c:1136-1143 | counts the row; the table is kept untouched below max_records and given away otherwise |
| `PgBatch.Client.AbandonBatch` | garner/plugins/OutputPlugin/libpostgres/postgres_db.c:1092-1121 | after a failed insert END has been sent for the batch, the count is 0, the flags agree with the server again, and the connection is kept exactly after a time-out |
| `PgBatch.Client.CommitIfFull` | garner/plugins/OutputPlugin/libpostgres/postgres_db.c:1123-1134 | below max_uncommitted_records nothing happens; at it the batch is committed and the count reset, or the connection is given up |
| `PgBatch.Client.ResetTransaction` | garner/plugins/OutputPlugin/libpostgres/postgres_db.c:566-583 | commits an open batch, rolls back an aborted one, and opens the next |
| `PgBatch.Client.PrepareNextTable` | garner/plugins/OutputPlugin/libpostgres/postgres_db.c:707-746 | success means a table, an open transaction, a prepared statement and zeroed counters; after a failure no statement but END can succeed, and TABLE_CREATED is set exactly if the table was found in the queue |
| `PgBatch.Client.NextAvailableTable` | garner/plugins/OutputPlugin/libpostgres/postgres_db.c:645-705 | TABLE_CREATED is set exactly for a table found in the queue; success means a table name; on a broken connection or in an aborted transaction it fails |
| `PgBatch.Client.MoveTable` | garner/plugins/OutputPlugin/libpostgres/postgres_db.c:748-794 | END is sent for the batch of the table, and no transaction and no prepared statement remain, whatever fails on the way |
| `PgBatch.Client.Release` | garner/plugins/OutputPlugin/libpostgres/postgres_db.c:859-885 | END is sent for the open batch before the connection is closed; nothing is left open |
| `PgBatch.Client.InitClient` | garner/plugins/OutputPlugin/libpostgres/postgres_db.c:887-925 | a new connection is idle and used exactly if it can be made non-blocking |
| `PgBatch.Client.Insert` | garner/plugins/OutputPlugin/libpostgres/postgres_db.c:962-1029 | the result of the prepared insert against every outcome the server may choose |
| `PgBatch.Client.Output` | garner/plugins/OutputPlugin/libpostgres/oppostgres.c:394-427 | inserts are made in order up to the first negative result; a missing connection only skips its event; exactly the results 0 are acknowledged; nothing is acknowledged from a stalled state without a new connection |
| `PgBatch.Client.ClockEvent` | garner/plugins/OutputPlugin/libpostgres/oppostgres.c:429-459 | the clock sends END for the open batch, gives the table away and resets exactly a connection that had a table name, losing fewer than max_uncommitted_records rows; it leaves a wedged client as it is |
| `PgServer.AckedRowsAccountedFor` | garner/plugins/OutputPlugin/libpostgres/postgres_db.c:1092-1141 | conservation: each acknowledged row is in exactly one of three places |
| `PgServer.InsertKeepsSound` | garner/plugins/OutputPlugin/libpostgres/postgres_db.c:962-1029 | every outcome of an insert keeps the books balanced |
| `PgServer.EndKeepsSound` | garner/plugins/OutputPlugin/libpostgres/postgres_db.c:542-564 | END keeps the books balanced, also when the connection breaks after the commit |
| `PgServer.ConnectKeepsSound` | garner/plugins/OutputPlugin/libpostgres/postgres_db.c:796-851 | a new connection discards the open batch and nothing else |
| `PgServer.PreparationCanGetStuck` | garner/plugins/OutputPlugin/libpostgres/postgres_db.c:707-738 | a run of server answers in which the preparation of a new table fails at PREPARE and leaves a live connection on which no later preparation and no insert can succeed, while the END that is not sent would help |
| `PgServer.PreparationFails` | garner/plugins/OutputPlugin/libpostgres/postgres_db.c:707-738 | every failed preparation leaves a connection on which none can succeed |
| `PgTrigger.Trigger.ClockEvent` | garner/plugins/OutputPlugin/libpgtrigger/oppgtrigger.c:384-427 | for any answers of the network: a query goes out exactly when none is left running, the counter has reached event_skipcount and the server takes it; only that resets the counter; a running query implies a connection and at most one query is outstanding |
| `PgTrigger.Trigger.Run` | garner/plugins/OutputPlugin/libpgtrigger/oppgtrigger.c:384-427 | over any run successive sends are at least event_skipcount events apart |
| `PgTrigger.Trigger.SendsAreRare` | garner/plugins/OutputPlugin/libpgtrigger/oppgtrigger.c:399-423 | n sends take at least (n-1)*event_skipcount events |
| `PgTrigger.Trigger.CheckStatus` | garner/plugins/OutputPlugin/libpgtrigger/oppgtrigger_db.c:241-280 | the next query may go out exactly when none is running or the running one has been answered; a connection that cannot be read is given up |
| `PgTrigger.Trigger.SendTrigger` | garner/plugins/OutputPlugin/libpgtrigger/oppgtrigger_db.c:282-337 | at most two rounds; a query is sent exactly when a connection is good, or a new one comes up non-blocking, and it takes the query |
| `PgTrigger.Trigger.InitClient` | garner/plugins/OutputPlugin/libpgtrigger/oppgtrigger_db.c:204-239 | a connection is used exactly if it comes up and can be made non-blocking |
| `PgTrigger.Trigger.Release` | garner/plugins/OutputPlugin/libpgtrigger/oppgtrigger_db.c:184-202 | closing abandons the outstanding query |
| `PgTrigger.SpacedSpan` | garner/plugins/OutputPlugin/libpgtrigger/oppgtrigger.c:412-423 | spacing adds up over a run |
| `KeyValue.RoundTrip` | garner/plugins/InputPlugin/fwstub/fwstub.c:307-350 | printing any list of fields (keys with plain, escaped or quoted values, words without a separator, values without a key, quoted values with something behind the quote; any spaces and delimiters between them) and parsing the text hands the handler exactly the pairs they stand for, in order, up to a drop |
| `KeyValue.ParsePrintedBuffer` | garner/plugins/InputPlugin/fwstub/fwstub.c:307-350 | the same for the parser that works in place on the buffer |
| `KeyValue.ParseKeyValue` | garner/plugins/InputPlugin/fwstub/fwstub.c:307-350 | the in-place loop, with its own offsets, computes the parse of the text, for every text |
| `KeyValue.GetKvPair` | garner/plugins/InputPlugin/fwstub/fwstub.c:182-206 | trims, finds the end of the pair outside quotes and escapes, and terminates it there; what follows stays a string |
| `KeyValue.GetKey` | garner/plugins/InputPlugin/fwstub/fwstub.c:210-229 | finds the separator and splits the pair in two strings; 0 without a change when there is no key |
| `KeyValue.GetValue` | garner/plugins/InputPlugin/fwstub/fwstub.c:233-253 | a quoted value must end with its quote, which is overwritten; an unquoted value is taken whole |
| `KeyValue.TakePair` | garner/plugins/InputPlugin/fwstub/fwstub.c:318-342 | one terminated pair yields an invalid pair or a key and a value; nothing outside the pair is touched |
| `KeyValue.Cut` | garner/plugins/InputPlugin/fwstub/fwstub.c:201-203 | overwriting the delimiter leaves two strings |
| `KeyValue.PrintedPairEnd` | garner/plugins/InputPlugin/fwstub/fwstub.c:191-200 | the scan of a printed field stops at its end, also past quoted and escaped delimiters |
| `KeyValue.PrintedValue` | garner/plugins/InputPlugin/fwstub/fwstub.c:233-253 | the value of a printed pair is read back, quoted or not |
| `KeyValue.PrintedWord` | garner/plugins/InputPlugin/fwstub/fwstub.c:219-228 | a word without a separator comes with an empty value |
| `KeyValue.PrintedNameless` | garner/plugins/InputPlugin/fwstub/fwstub.c:216-218 | a value without a key is skipped |
| `KeyValue.BotchedValue` | garner/plugins/InputPlugin/fwstub/fwstub.c:244-252 | a closing quote that is not the last character makes the value invalid |
| `KeyMap.SortMap` | garner/plugins/InputPlugin/crstub/utils.c:142-154 | the exchange sort leaves a permutation sorted under case-insensitive order |
| `KeyMap.SwapEntries` | garner/plugins/InputPlugin/crstub/utils.c:133-140 | exactly the two entries change places |
| `KeyMap.GetKeyIndex` | garner/plugins/InputPlugin/crstub/utils.c:161-177 | an index with an equal key exactly when a linear scan would find one, -1 otherwise |
| `KeyMap.InitAndFind` | garner/plugins/InputPlugin/crstub/utils.c:156-177 | after init_map the search finds an entry of the original map exactly when a linear scan of it would |
| `KeyMap.CompareEqual` | garner/plugins/InputPlugin/crstub/utils.c:168-170 | the comparison is 0 exactly for keys whose characters are equal or the two cases of one letter |
| `KeyMap.CompareFirst` | garner/plugins/InputPlugin/crstub/utils.c:148-148 | a key comes first at the first smaller lower-case character, or as a proper beginning |
| `KeyMap.CompareTransitive` | garner/plugins/InputPlugin/crstub/utils.c:148-148 | the comparison is a transitive order |
| `Archive.Archiver.Archive` | garner/plugins/OutputPlugin/libarchiever/utils.c:328-387 | for any pattern of short and failed writes the record starts where the earlier records of its file end, the event carries the log name and that start, the bytes the file held before are recorded, and an open file whose path fits is below max_filesize at every return |
| `Archive.Archiver.Book` | garner/plugins/OutputPlugin/libarchiever/utils.c:350-384 | file_size, fp_offset and the index entry after a record |
| `Archive.Archiver.Rotate` | garner/plugins/OutputPlugin/libarchiever/utils.c:239-289 | the file is closed exactly when its path fits the buffer, and then moved away if the rename works; every invariant is kept |
| `Archive.LongPathStaysOpen` | garner/plugins/OutputPlugin/libarchiever/utils.c:255-260 | a path that does not fit: the file stays open at its limit |
| `Archive.Archiver.CreateFile` | garner/plugins/OutputPlugin/libarchiever/utils.c:200-237 | a new file session starts with zero counters on the file whose path, cut to the buffer, is opened |
| `Archive.Archiver.OwnFile` | garner/plugins/OutputPlugin/libarchiever/utils.c:217-222 | log names share a file only when the path is cut or fills the buffer |
| `Archive.Archiver.WriteToFile` | garner/plugins/OutputPlugin/libarchiever/utils.c:291-325 | the file grows by exactly the bytes the attempts wrote, and it gives up only after the third attempt or at an error |
| `Archive.Archiver.Output` | garner/plugins/OutputPlugin/libarchiever/archiever.c:361-391 | each archived event of a batch leaves with the name and the offset of its own record, the others are unchanged; unused file names keep all offsets exact |
| `Archive.Archiver.ClockEvent` | garner/plugins/OutputPlugin/libarchiever/archiever.c:393-410 | after the clock no file whose path fits is open |
| `Archive.Archiver.Run` | garner/plugins/OutputPlugin/libarchiever/archiever.c:361-410 | over any run of batches and clock events the records of every file session tile it, an open file whose path fits is below max_filesize, and with new file names every archived event carries its log name and exactly the number of bytes its file held before |
| `Archive.Archiver.OffsetIsExact` | garner/plugins/OutputPlugin/libarchiever/utils.c:372-380 | the stored offset is the number of bytes before the record exactly when the file was new |
| `Archive.NoOverlap` | garner/plugins/OutputPlugin/libarchiever/utils.c:350-384 | no two records of a file session share a byte |
| `Archive.NoGap` | garner/plugins/OutputPlugin/libarchiever/utils.c:350-384 | every byte of a file session belongs to a record |
| `ScriptDate.JsDate.GetWeekNumber` | webapp/src/web/javascript/calendar.js:1737-1745 | the ISO week of the date as `new Date` rebuilds it, whenever the clocks move by less than twelve hours between the two instants compared |
| `ScriptDate.WeekNumbersOfYear` | webapp/src/web/javascript/calendar.js:1737-1738 | the week number is right on every day of a year exactly when the year is not in 0 to 99 |
| `ScriptDate.WrongSunday` | webapp/src/web/javascript/calendar.js:1737-1745 | for each of those years, a June date with a wrong number |
| `ScriptDate.RebuiltIsSame` | webapp/src/web/javascript/calendar.js:1738-1738 | `new Date(y, m, d)` gives the same date back exactly outside the years 0 to 99 |
| `ScriptDate.JsDate.SetFullYear` | webapp/src/web/javascript/calendar.js:1829-1836 | the patched setter keeps the month, and the day as far as the month allows |
| `ScriptDate.ChangingYear` | webapp/src/web/javascript/calendar.js:1829-1836 | only February 29 overruns its month when the year changes |
| `ScriptDate.JsDate.EqualsTo` | webapp/src/web/javascript/calendar.js:1748-1754 | equal fields exactly for equal day and minute |
| `IsoWeek.WeekFromJanuaryFourth` | webapp/src/web/javascript/calendar.js:1740-1744 | rounding the distance to January 4 counts ISO weeks, also across a clock change of less than twelve hours |
| `IsoWeek.IsoWeekUnique` | webapp/src/web/javascript/calendar.js:1736-1745 | a day belongs to one week of one ISO year |
| `IsoWeek.RowNumberFits` | webapp/src/web/javascript/calendar.js:1196-1202 | a week number fits a row of seven days exactly when the row starts on Monday |
| `Civil.YearOfMonths` | webapp/src/web/javascript/calendar.js:1716-1726 | the month lengths add up to 365 or 366 days |
| `Civil.YearLength` | webapp/src/web/javascript/calendar.js:1716-1726 | day numbers advance by the length of the year |
| `Civil.MonthLengths` | webapp/src/web/javascript/calendar.js:1716-1726 | which months have 30 days, that February alone is shorter and has 29 days exactly in years of 366, and that 97 years of every 400 are leap years |
| `Civil.GaussRule` | webapp/src/web/javascript/calendar.js:1739-1739 | the weekday of January 1 of every year |
| `Civil.FieldsOf` | webapp/src/web/javascript/calendar.js:1716-1726 | year, month and day are read back from a day number |
| `CalendarWidget.Calendar.Init` | webapp/src/web/javascript/calendar.js:1165-1259 | year clamped, date kept with its time, and the 42 cells and six week numbers those of that month |
| `CalendarWidget.Calendar.InitInvalid` | webapp/src/web/javascript/calendar.js:1165-1259 | with an invalid date no cell shows a day |
| `CalendarWidget.Fill` | webapp/src/web/javascript/calendar.js:1179-1255 | the walk over the cells shows the 42 days from the grid start on, with the right flags and week numbers |
| `CalendarWidget.SummerTimeIsSteady` | webapp/src/web/javascript/calendar.js:1736-1745 | clocks that move by at most an hour suit every week number |
| `CalendarWidget.FillRow` | webapp/src/web/javascript/calendar.js:1205-1255 | one row shows seven consecutive days |
| `CalendarWidget.ToGridStart` | webapp/src/web/javascript/calendar.js:1185-1190 | the magic with setDate reaches the last first-day-of-week up to the first of the month |
| `CalendarWidget.GridColumns` | webapp/src/web/javascript/calendar.js:1196-1255 | shown days are consecutive and every column has a fixed weekday starting at firstDayOfWeek |
| `CalendarWidget.GridShowsMonth` | webapp/src/web/javascript/calendar.js:1196-1255 | every day of the month is shown exactly once, in order, and only the displayed date is selected |
| `CalendarWidget.RowNumbers` | webapp/src/web/javascript/calendar.js:1196-1201 | the number beside a row is that of its seven days exactly when rows start on Monday |
| `CalendarWidget.MonthTells` | webapp/src/web/javascript/calendar.js:1209-1209 | near the month, comparing months alone tells its days from the others |
| `CalendarWidget.Calendar.SetDate` | webapp/src/web/javascript/calendar.js:1272-1276 | shows the date, its year clamped; an equal date changes nothing, whatever the bounds |
| `CalendarWidget.Calendar.Navigate` | webapp/src/web/javascript/calendar.js:603-702 | a button moves by exactly its number of months with the day cut to the month, or does nothing at the bounds; the grid follows; an invalid date stays invalid |
| `CalendarWidget.Press` | webapp/src/web/javascript/calendar.js:637-662 | the four buttons, with their two-step moves across a year end, against one month-counting definition |
| `CalendarWidget.ButtonsLead` | webapp/src/web/javascript/calendar.js:637-662 | where each button leads: the neighbouring month or year, across year ends, and nowhere at the bounds |
| `CalendarWidget.SetMonthWithin` | webapp/src/web/javascript/calendar.js:611-618 | the month changes and the day is cut to its length |
| `CalendarWidget.WalkIs` | webapp/src/web/javascript/calendar.js:637-662 | after any run of buttons the year is in range, the month is where the steps lead, and the day is the original one cut to the shortest month visited |
| `CalendarWidget.YearStepKeepsDay` | webapp/src/web/javascript/calendar.js:637-662 | a year step changes the day only from February 29 to 28 |
| `CalendarWidget.StepUndone` | webapp/src/web/javascript/calendar.js:637-662 | the opposite button undoes a step exactly when the day fits the month visited |
| `CalendarWidget.ClampedInRange` | webapp/src/web/javascript/calendar.js:1168-1175 | clamping brings the year into range and keeps a date that is in range |
| `DateRoundTrip.ParseUndoesPrint` | webapp/src/web/javascript/calendar.js:1497-1556 | printing a date from year 1 on and parsing it recovers the date exactly when its year is at least 100, with the hour and minute that were printed, and a calendar whose years include it shows it |
| `DateRoundTrip.PrintThenParse` | webapp/src/web/javascript/calendar.js:1497-1556 | what is recovered below year 100: the year is completed from two digits |
| `DateRoundTrip.SplitPrinted` | webapp/src/web/javascript/calendar.js:1501-1501 | splitting at non-word characters finds the printed words |
| `DateRoundTrip.FormatDirectives` | webapp/src/web/javascript/calendar.js:1757-1809 | matching the format finds its directives in order; printing replaces exactly them |
| `DateRoundTrip.ReadingWords` | webapp/src/web/javascript/calendar.js:1509-1552 | each word is read under the directive that printed it |
| `DateRoundTrip.MidnightHour` | webapp/src/web/javascript/calendar.js:1785-1809 | the unpadded hour directive prints as itself exactly at hour 0 |
| `DateFormat.ParseDate` | webapp/src/web/javascript/calendar.js:1497-1556 | the loop computes the reading of the words; the calendar moves to the clamped date, holds an invalid date when a field is not a number, and stays as it is otherwise |
| `DateReading.RecognisedExactly` | webapp/src/web/javascript/calendar.js:1509-1556 | a text is left to the later guesses exactly when no word is read as a year, none as a month or the last month is number 0, or none as a day or the last day is 0 |
| `DateReading.MovesToWords` | webapp/src/web/javascript/calendar.js:1509-1556 | otherwise the calendar moves to the last year, month and day that the words name |
| `DateReading.LastWords` | webapp/src/web/javascript/calendar.js:1512-1533 | year, month and day come from the last word under a directive of theirs; years below 100 are of 1930 to 2029, month numbers count from 1 |
| `DateReading.EmptyIsLeft` | webapp/src/web/javascript/calendar.js:1509-1556 | an empty text is left alone, whatever the format |
| `DateReading.NewDayCarries` | webapp/src/web/javascript/calendar.js:1554-1554 | months, days, hours and minutes beyond their range carry into the larger unit |
| `DateReading.HalfDays` | webapp/src/web/javascript/calendar.js:1542-1546 | an hour before PM is one of the afternoon, except 12; AM changes nothing, not even 12 |
| `DateReading.DirectivesMean` | webapp/src/web/javascript/calendar.js:1776-1809 | the printed numbers are the customary ones: months from 1, two digits where padded |
| `DateReading.WordCharacters` | webapp/src/web/javascript/calendar.js:1501-1501 | letters, digits and the underscore make up words, their neighbours and the usual separators do not |
| `DateReading.OtherDirectives` | webapp/src/web/javascript/calendar.js:1776-1809 | literal characters, names from elsewhere, and unknown letters left as they are |
| `DateReading.DigitsInOrder` | webapp/src/web/javascript/calendar.js:1515-1515 | digits are written and read most significant first |
| `DateFormat.ParsePadded` | webapp/src/web/javascript/calendar.js:1515-1519 | a padded number is read back |
| `DateFormat.ValueOfDecimal` | webapp/src/web/javascript/calendar.js:1515-1519 | a printed number has the value it was printed from |

## Left out

- Sockets, signals, plugin loading, process supervision, configuration parsers, logging, and the DOM: system calls and presentation.
- The Jenkins mixing function, struct offsets and the handle's pointer back to its table: the hash is any function of the key, and each table is one object.
- The copies of the hash table in libdevdiscovery and libresolver: the model follows the fwstub copy.
- Integer wrap-around of `num_items`, bucket counts and `record_count`: unbounded naturals.
- Allocation failures and the fixed sizes of `devid`, query and file-name buffers, except the path buffer of the archive rotation.
- Contents of a record after a short write: `write_to_file` does not advance its buffer on a retry, so only byte counts are claimed.
- The md5 sum of a rotated file and the scan of the archive directory at start-up.
- The conversion functions behind `set_kv_pair` and the fields of the standard event: the handler is an arbitrary function.
- Key/value text with an unclosed quote, a quote inside a quoted value (an escape does not protect it from the scan for the end of the pair) or an escape at its end: `KeyValue.ParseKeyValue` covers every text, the inverse does not.
- Buttons other than the four navigation buttons, time selection, `getDateStatus` handlers, and `weekNumbers` off: the grid is modelled without a status handler and with week numbers; the today and weekend classes are presentation.
- The fallback guesses of `parseDate` after its first attempt, the old-browser branch of `print`, 12-hour formats, weekday and month names: names and the other directives are parameters.
- Daylight saving, except between the two instants of `getWeekNumber`; seconds; the range limits of script dates.
- Archive.Archiver.constructor: asks for `max_filesize` of at most 2^32 - 2048, so that the 32-bit size cannot wrap before the rotation test.
- Archive.Archiver.Archive: offsets are relative to the opening of the file; they are positions in the file exactly when the file was new, which `Archive.Archiver.OffsetIsExact` states.
- DeviceGate.AddDevids: takes the ids already trimmed and without comment lines.
- CalendarWidget.Calendar.Navigate: with `minYear > maxYear` it promises a valid grid and not which date is shown; the clamping then alternates between the bounds.
- PgBatch.Client.MoveTable: the contents of the queues of available and used tables are not modelled; the statements on them succeed or fail like any other.
- PgBatch.Client.constructor: expects `max_uncommitted_records >= 1`.
- DateRoundTrip.ParseUndoesPrint: dates from year 1 on; year 0 prints its directive and negative years print a sign that the parser drops.
