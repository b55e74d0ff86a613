# Proofs about uhp-sql

uhp-sql is a small SQL server: a threaded network layer, a MySQL-protocol codec, executors that
keep rows as strings in a Redis-like key/value store, and a TOML configuration reader. This
project models its hard core in Dafny and proves what that code is for. `dafny verify
dfyconfig.toml` checks all of it.

Every component has two layers. The *specification* is made of datatypes, functions and lemmas:
what one call does, and what holds over whole runs. The *objects* are classes and methods with the
source's own fields, loops and in-place updates; each method is proved equal to its specification
function, so the lemmas speak about it.

| files | component |
|---|---|
| `Common.dfy` | an option type and two facts about numbers and sequences |
| `ThreadPool.dfy` | the thread pool as a step protocol over one mutex and one condition variable |
| `Bytes.dfy`, `CircularBuffer.dfy`, `UnboundedBuffer.dfy`, `AsyncBuffer.dfy`, `StreamSocket.dfy` | the byte transport: ring, linear buffer, three-stage send queue, socket |
| `StringUtils.dfy`, `Decimal.dfy`, `Order.dfy`, `Catalog.dfy`, `KvStore.dfy`, `Keys.dfy`, `Engine.dfy`, `Refinement.dfy`, `Simulation.dfy`, `Queries.dfy`, `StorageWitnesses.dfy`, `Executor.dfy` | SQL rows and catalog on key/value strings |
| `Resp.dfy` | the RESP request printer and the resumable parser |
| `Wire.dfy`, `ResultSet.dfy`, `Packets.dfy` | the MySQL packet codec and result sets |
| `TomlLexer.dfy`, `TomlParser.dfy`, `TomlWriter.dfy`, `TomlRoundTrip.dfy`, `TomlLaws.dfy`, `TomlObjects.dfy` | the TOML lexer, parser and printer |

## Results

- **Thread pool.** Over every guarded run from the start, with any interleaving, spurious wakeups
  and monitor retirements, no wakeup is lost; JoinAll drains the queue, every task submitted before
  it runs exactly once, started in the order of submission, and the workers terminate. The monitor's unsigned
  subtraction is safe *exactly* when `waiters_ >= pendingStopSignal_`; a reachable state where it
  is not, and a run from there that strands an accepted task for good, are given.
- **Byte transport.** The ring object is a bounded FIFO queue over every run of pushes and peeks; the
  linear buffer an unbounded one that grows within 3/2 of what is needed; the send queue keeps
  bytes in order over every interleaving of writes, offers and partial sends, and which lengths of
  writes lose the order when a swap is not atomic is given exactly; scatter reads append exactly
  their bytes; DoMsgParse conserves bytes for every handler.
- **SQL storage.** Every legal run of CREATE TABLE, INSERT, UPDATE, DELETE by key, SELECT by key,
  the library calls `DBMS::CreateDataBase` and `DBMS::SwitchDB`, and *process restarts* on the
  string store answers what a plain database, a catalog and a map from key to row, answers. No
  statement reaches those two calls; the repository makes them only for "default"
  (`meta/dbms.cc:82-83`), so a restart that moves to another database takes a caller of its own or
  a store that already holds several databases. Row codec, schema codec, key layout, restart and the
  two scanning queries each come with the exact condition under which they do what they promise.
- **RESP.** Pipelined requests round-trip. A request delivered in any number of pieces behind its
  header is parsed as if it had come whole *exactly* when no cut leaves three or more digits of a
  string's length, but not all of them; the cuts inside the header are characterised exactly too.
- **MySQL wire.** Exact round-trip conditions for length-encoded integers, strings, types, field
  packets and rows; a client recovers every result set whose payloads fit the one-byte length.
- **TOML.** Parsing what the printer writes, indented or not, returns the value *exactly* when no
  key is empty and no leaf key, lexed as a path, finds an earlier leaf of its table, for values with
  tables and arrays of tables nested to any depth. Tables of bare keys always do. What the printer
  never writes has laws of its own: comments, blanks, the byte order mark, the other kinds of string
  and number, arrays laid out by hand, and which headers any tree accepts.

False expectations found, each with its exact condition or a concrete input:
`MonitorSafeExactly`, `WrapStrandsTask` (monitor wrap), `SplitProcessExactly` and
`SplitProcessLosesOrder` (a swap that is not atomic), `RoundUpStopsExactly` (no power of two above
2^63), `RowCodecExactly` and `EmptyLastIsDropped` (an empty last cell is lost),
`SchemaRoundTripsExactly`, `KeyNamesTableExactly`, `RowsMeetExactly` and `RowsMeet` (underscores in names),
`RestartUnnoticedExactly` (a restart moves to the greatest database name), `RecreateDivergesExactly`,
`LimitExceededExactly` and `GreaterIsFilterExactly` (limit + 1 rows), with runs from an empty store
that show them in `RestartMovesAway`, `RecreateDiverges` and `LimitIsOff`, `HeaderCutExactly`,
`CutExactly` and `CutInsensitive` (RESP cuts), `LenRoundTripsExactly` (2^16), `DeframesExactly` (255 bytes),
`RoundTripsExactly` and `TrailingBlankRejected` (TOML keys).

## Assumptions

- Thread pool: one step per critical section, as the mutex enforces; `--pendingStopSignal_` is one
  atomic step of its own. `MonitorKeeps` and all that rests on it take `waiters_ >=
  pendingStopSignal_` as the guard of a monitor round. `MonitorSafeExactly` assumes fewer than 2^30
  threads and queued tasks.
- Send queue: `Write`, `ProcessBuffer` and `Skip` are atomic steps. The source does not make them
  so: between the ring-empty test (`network/async_buffer.cc:72`) and the swap
  (`network/async_buffer.cc:78-80`) a writer can fill the ring and then overflow, and
  `SplitProcessExactly` says for which lengths of writes the order is then lost.
- `readv` and `writev` transfer any part of what they are offered, block, or fail.
  `std::vector::resize` succeeds.
- `PushDataAt` of the ring is taken at offset 0, the only offset its callers use; at others the
  copy goes to `writePos_` instead of the computed position (`network/buffer.h:240-252`).
- The key/value server is a map from string to string. `SCAN 0 MATCH prefix*` answers all pairs
  under the prefix, in key order, as key, value, key, value (`KvStore.IsScan`, `KvStore.Flat`);
  names and LIKE values contain no glob characters (`*`, `?`, `[`, `\`), which the source would put
  into the pattern, and no text contains a NUL.
- `char` is signed (`Trim` takes bytes from 128 up for blanks). `TableColumn` declares a destructor,
  so `std::move` of a column copies it and CREATE TABLE still sees its columns when it encodes them.
- Callers of the storage layer (`Refinement.Enabled`): database and table names without underscore,
  tables created under fresh, non-empty, trimmed names; columns named distinctly and without `^` and
  `$`; an INSERT lists a permutation of the columns with the key column first; an UPDATE leaves the
  key column alone; stored rows are clean (`StringUtils.Clean`).
- Signed overflow in the RESP parser is the explicit outcome `Overflow`; streams of up to 2^31 - 1
  bytes never reach it on valid requests.

## Model

| member | source | states |
|---|---|---|
| ThreadPoolProtocol.RunKeeps | network/thread_pool.cc:67-114 | the invariant, waiters = blocked + notified, pending = queued stops + retiring, no sleeper with more tasks than workers on their way, more live workers than queued stops, history balanced, holds throughout every guarded run |
| ThreadPoolProtocol.SubmitKeeps | network/thread_pool.h:76-88 | submitting, creating a worker when nobody waits, and notifying keep the invariant |
| ThreadPoolProtocol.LockKeeps | network/thread_pool.cc:73-89 | a worker with the mutex that counts itself, sleeps, leaves or takes a task keeps the invariant |
| ThreadPoolProtocol.MonitorKeeps | network/thread_pool.cc:100-112 | a guarded monitor round keeps the invariant: it leaves more live workers than stops |
| ThreadPoolProtocol.NoLostWakeup | network/thread_pool.cc:67-114 | before shutdown, when tasks are queued some worker is awake, and while any sleeps there are at least as many workers on their way to the mutex as tasks |
| ThreadPoolProtocol.ShutdownDrains | network/thread_pool.cc:39-59 | when all workers have exited after shutdown the queue is empty, and the tasks submitted before JoinAll, read off the steps of the run alone, were started in the order submitted and each finished exactly once |
| ThreadPoolProtocol.AcceptedAreSubmitted | network/thread_pool.h:76-90 | over every run exactly the tasks submitted before the first JoinAll are accepted, in order |
| ThreadPoolProtocol.SubmitCreatesExactly | network/thread_pool.h:82-85 | a submit queues its task last and creates a thread exactly when no worker is waiting |
| ThreadPoolProtocol.MonitorLeaves | network/thread_pool.cc:103-111 | a guarded round leaves min(idle, maxIdleThread_) waiters unsignalled and queues one Stop per signal behind the tasks |
| ThreadPoolProtocol.RejectedAfterShutdown | network/thread_pool.h:78-80 | shutdown is final, and nothing submitted after it is ever accepted |
| ThreadPoolProtocol.JoinTerminates | network/thread_pool.cc:52-54 | after shutdown the workers take a bounded number of steps in any interleaving |
| ThreadPoolProtocol.JoinProgresses | network/thread_pool.cc:52-54 | after shutdown some worker can step until all have exited |
| ThreadPoolProtocol.MonitorSafeExactly | network/thread_pool.cc:103-112 | a monitor round keeps the invariant exactly when `waiters_ >= pendingStopSignal_` |
| ThreadPoolProtocol.GuardCanFail | network/thread_pool.cc:93-105 | a reachable state with 0 waiters and 1 pending stop signal |
| ThreadPoolProtocol.WrapStrandsTask | network/thread_pool.cc:103-112 | from that state a run in which every worker retires while an accepted task stays queued |
| ThreadPoolObject.ThreadPool.ExecuteTask | network/thread_pool.h:76-90 | pushes the task, creates a worker when nobody waits, notifies one; rejects after shutdown |
| ThreadPoolObject.ThreadPool.WorkerRoutine | network/thread_pool.cc:67-91 | the critical section: counting, the wait predicate, leaving, taking the first task |
| ThreadPoolObject.ThreadPool.MonitorRoutine | network/thread_pool.cc:100-112 | the unsigned loop queues exactly the stops of the specification and notifies once for each |
| ThreadPoolObject.ThreadPool.JoinAll | network/thread_pool.cc:42-50 | sets shutdown once and wakes everybody |
| ThreadPoolObject.ThreadPool.SetMaxIdleThread | network/thread_pool.cc:33-37 | takes bounds from 1 to 256 and keeps the old one otherwise |
| ThreadPoolObject.ThreadPool.LeaveLoop | network/thread_pool.cc:93 | a stopped worker takes back its signal |
| ThreadPoolObject.ThreadPool.constructor | network/thread_pool.cc:20-24 | the initial state |
| CircularBuffers.RoundUp2Power | network/buffer.h:42-49 | the least power of two at least the size, for sizes up to 2^63; 0 stays 0 |
| CircularBuffers.RoundUpStopsExactly | network/buffer.h:42-49 | the shift loop can stop exactly for sizes up to 2^63 |
| CircularBuffers.RunIsFifo | network/buffer.h:224-306 | over every run of the queue's pushes and pops the bytes popped followed by the contents are the bytes accepted, and the bound is never exceeded |
| CircularBuffers.Drive | network/buffer.h:224-306 | the ring object driven through any run of pushes and peeks has the contents, accepts and returns what the queue does, so it is first in, first out |
| CircularBuffers.QueueExactly | network/buffer.h:224-306 | a push happens exactly when it fits, a pop exactly when the bytes are there, and both are whole or nothing |
| CircularBuffers.ScatterIsStore | network/buffer.h:189-222 | filling the free segments in order is storing the bytes behind the write position |
| CircularBuffers.CircularBuffer.constructor | network/buffer.h:356-363 | an empty ring of the least power of two at least the size |
| CircularBuffers.CircularBuffer.InitCapacity | network/buffer.h:326-333 | the storage becomes the least power of two at least the size; cells and positions stay, and with them the contents when it grows and they do not wrap |
| CircularBuffers.CircularBuffer.IsEmpty | network/buffer.h:73 | equal positions mean no contents |
| CircularBuffers.CircularBuffer.IsFull | network/buffer.h:74 | the masked test means one cell is left |
| CircularBuffers.CircularBuffer.ReadableSize | network/buffer.h:93-95 | the masked, wrapped difference is the number of bytes held |
| CircularBuffers.CircularBuffer.WriteableSize | network/buffer.h:96 | capacity is one less than the size |
| CircularBuffers.CircularBuffer.PushDataAt | network/buffer.h:232-261 | fails exactly when the bytes do not fit; otherwise one or two copies lay them out behind the contents; asserts hold |
| CircularBuffers.CircularBuffer.PushData | network/buffer.h:224-230 | appends all or nothing |
| CircularBuffers.CircularBuffer.PeekDataAt | network/buffer.h:263-296 | returns the bytes at the offset, over the wrap, or fails exactly when there are too few |
| CircularBuffers.CircularBuffer.PeekData | network/buffer.h:298-306 | removes the bytes it returns from the front |
| CircularBuffers.CircularBuffer.AdjustWritePtr | network/buffer.h:308-315 | moves the write position modulo the size |
| CircularBuffers.CircularBuffer.AdjustReadPtr | network/buffer.h:317-324 | drops bytes from the front |
| CircularBuffers.CircularBuffer.GetDatum | network/buffer.h:137-179 | the segments hold exactly the readable bytes asked for, in order |
| CircularBuffers.CircularBuffer.GetSpace | network/buffer.h:189-222 | the segments are the free cells but one, in order |
| CircularBuffers.CircularBuffer.ReadV | network/stream_socket.cc:47-58 | a scatter read of any length into the free segments appends exactly those bytes |
| UnboundedBuffers.UnboundedBuffer.AssureSpace | network/unbounded_buffer.cc:78-101 | terminates, keeps the contents over growth and compaction, makes the room, and keeps the capacity within max(old, 64, 3/2 of what is needed) |
| UnboundedBuffers.UnboundedBuffer.PushDataAt | network/unbounded_buffer.cc:44-56 | lays the bytes out behind the contents within the asserted room; a full buffer takes none |
| UnboundedBuffers.UnboundedBuffer.PushData | network/unbounded_buffer.cc:37-42 | appends the bytes |
| UnboundedBuffers.UnboundedBuffer.PeekDataAt | network/unbounded_buffer.cc:65-76 | as many bytes from the offset as there are |
| UnboundedBuffers.UnboundedBuffer.PeekData | network/unbounded_buffer.cc:58-63 | removes what it returns from the front |
| UnboundedBuffers.UnboundedBuffer.Swap | network/unbounded_buffer.cc:129-133 | exchanges the contents |
| UnboundedBuffers.UnboundedBuffer.Clear | network/unbounded_buffer.cc:127 | empties the buffer |
| SendQueue.SendIsFifo | network/async_buffer.cc:30-98 | over every interleaving of writes, offers and skips, wire ++ tmp ++ ring ++ back is what was written |
| SendQueue.StepKeeps | network/async_buffer.cc:30-98 | an offer stays at the front of the stage it came from, whatever is written before its skip |
| SendQueue.OffersExactly | network/async_buffer.cc:65-88 | something is offered exactly when something is pending, or, with the lock taken, pending in front of the back buffer, which then stays; the offer is next in line and nothing is lost |
| SendQueue.ThreeRoundsDrain | network/async_buffer.cc:65-98 | three offers taken whole put everything on the wire |
| SendQueue.SplitProcessExactly | network/async_buffer.cc:72-80 | writes of given lengths between the ring-empty test and the swap keep the order, whatever their bytes, exactly when something had overflowed before, or all of them fit the ring, or not even the first does |
| SendQueue.SplitProcessLosesOrder | network/async_buffer.cc:72-80 | for every ring size, a write that fills the ring and one more byte, after which the split swap loses the order |
| AsyncBuffers.AsyncBuffer.Write | network/async_buffer.cc:30-54 | to the ring, or, when something overflowed or it does not fit, to the back buffer; `backBytes_` stays the back buffer's size; asserts hold |
| AsyncBuffers.AsyncBuffer.ProcessBuffer | network/async_buffer.cc:65-88 | offers exactly the first stage that has something |
| AsyncBuffers.AsyncBuffer.Skip | network/async_buffer.cc:90-98 | drops what was sent from that stage |
| StreamSockets.SocketSendIsFifo | network/stream_socket.cc:81-154 | over every run of packets, sends and write events with any kernel, wire ++ pending is the packets in order, and EPOLLOUT is never left on with nothing pending |
| StreamSockets.EpollOutFollows | network/stream_socket.cc:63-154 | after an attempt with bytes to offer EPOLLOUT is on when the kernel blocks or takes a part, off when it takes all, and as before otherwise; without an offer an event turns it off |
| StreamSockets.StreamSocket.SendPacket | network/stream_socket.cc:81-85 | queues the packet |
| StreamSockets.StreamSocket.SendV | network/stream_socket.cc:63-79 | the result and EPOLLOUT after one gathered write |
| StreamSockets.StreamSocket.Send | network/stream_socket.cc:111-132 | one attempt unless EPOLLOUT is awaited; skips what the kernel took; a partial or blocked attempt leaves EPOLLOUT on and registered, a whole one off |
| StreamSockets.StreamSocket.OnWriteable | network/stream_socket.cc:135-154 | one attempt; a partial or blocked one leaves EPOLLOUT on, a whole one or nothing to offer turns it off and takes back the registration |
| StreamSockets.StreamSocket.Recv | network/stream_socket.cc:42-61 | appends exactly the bytes read, never more than the room |
| StreamSockets.FedConserves | network/stream_socket.cc:167-184 | consumed ++ remaining is what was received |
| StreamSockets.FedInTurn | network/stream_socket.cc:167-184 | each call is given what the one before left, answers as the handler does at its turn, and none follows one that wants no more |
| StreamSockets.Attach | network/buffer.h:389-413 | the attached buffer is the segments, contiguous |
| StreamSockets.StreamSocket.DoMsgParse | network/stream_socket.cc:167-184 | ends for every handler that consumes at most what it is given; each call sees exactly the contents; it stops only when empty or refused |
| StringUtils.TrimString | network/string_utils.h:8-18 | both index loops cut exactly the blanks at the ends |
| StringUtils.TrimCuts | network/string_utils.h:8-18 | the result is a trimmed part between blanks |
| StringUtils.TrimExactly | network/string_utils.h:8-18 | what is cut off are bytes up to 32 and from 128; what is left starts and ends with bytes from 33 to 127 |
| StringUtils.StringSplit | network/string_utils.h:20-36 | the split loop ends and makes the pieces of the specification |
| StringUtils.StringsJoin | network/string_utils.h:38-51 | the builder loop joins the strings |
| StringUtils.CleanSplits | network/string_utils.h:20-51 | splitting a joined clean row gives the row |
| StringUtils.SplitTrims | network/string_utils.h:20-51 | splitting a joined row of any cells whose separators are the first ones trims every cell, and drops the last when nothing is left of it |
| StringUtils.EmptyLastIsDropped | network/string_utils.h:20-51 | a row clean but for an empty last cell loses exactly that cell |
| StringUtils.RowCodecExactly | network/string_utils.h:20-51 | the row codec round-trips exactly on clean rows and the empty row |
| StringUtils.KeyNamesTableExactly | meta/database.cc:78-79 | the last piece of a stored table key is the table's name exactly when the name is plain |
| Decimal.DigitsAreDigits | network/common.cc:61-62 | a printed number reads back |
| Decimal.TensAndUnits | network/common.cc:61-62 | a number is written digit by digit in the bytes from 48 on, the units last |
| Schema.BuildTable | meta/datatable.cc:23-32 | the constructor loop fills the three maps from the columns |
| Schema.IndexesKnow | meta/datatable.cc:38-45 | the index map knows exactly the columns, at a position of theirs |
| Schema.LastOneCounts | meta/datatable.cc:26-29 | of columns with one name the maps know the last |
| Schema.UnknownColumn | meta/datatable.cc:38-45 | a column the table has not has index -1 and no type |
| Schema.MapsInverseExactly | meta/datatable.cc:26-29 | index and name maps are inverse exactly when no two columns share a name |
| Schema.EncodeColumns | meta/database.cc:42-49 | the encoding loop writes the schema text |
| Schema.GetColFromStr | meta/database.cc:93-116 | the decoding loop reads what the specification reads, or throws where `std::stoi` does |
| Schema.StoiExactly | meta/database.cc:93-116 | white space, a sign and digits are read whatever follows; without a digit or outside `int` the conversion throws |
| Schema.AnySecondSkipped | meta/database.cc:93-116 | the character behind the `$` that ends a column is skipped whatever it is |
| Schema.DecodesEncoded | meta/database.cc:93-116 | decoding inverts encoding for columns free of `^` and `$` |
| Schema.SchemaRoundTripsExactly | meta/database.cc:42-116 | a stored schema is read back exactly when there are columns and no name has `^` or `$` |
| Schema.TypeCode | parser/column_type.h:25-93 | the type switches are inverse exactly on the fourteen codes, which number the types in their order; any other code is VARCHAR |
| Order.LessBehindPrefix | executor/select_executor.cpp:138-139 | strings behind a common prefix order like their rests |
| KvStore.ScanUnique | executor/select_executor.cpp:126-127 | the assumed answer to a scan is determined |
| Keys.TextInjective | executor/insert_executor.cpp:60 | database, table and row keys never collide for names without underscore |
| Keys.DataKeyOf | executor/select_executor.cpp:125 | a row key under the prefix of a table is that table's |
| Keys.RowsMeetExactly | executor/insert_executor.cpp:60 | rows of any two tables of any two databases can share a key exactly when one table's key prefix extends the other's |
| Keys.RowsMeet | executor/insert_executor.cpp:60 | the tables `a` and `a_p` of one database share keys, and so do `a_b` and `b` of two |
| Refinement.PlaceIsRowOf | executor/insert_executor.cpp:61-68 | placing permuted cells through the index map gives the row in column order |
| Refinement.DecodesToFields | executor/select_executor.cpp:59-74 | a stored clean row decodes to its named, typed cells |
| Refinement.DecodesAnyLength | executor/select_executor.cpp:59-74 | a clean row of any length decodes cell by cell, named and typed by its column; cells behind the last column have no name |
| Simulation.NewDbRefines | meta/dbms.cc:34-43 | creating a database simulates adding an empty one |
| Simulation.NewTableRefines | meta/database.cc:35-56 | CREATE TABLE under a fresh name simulates adding its columns |
| Simulation.InsertRefines | executor/insert_executor.cpp:54-74 | INSERT stays inside its vector and simulates setting the row under its key |
| Simulation.UpdateRefines | executor/update_executor.cpp:50-78 | UPDATE stays inside its vector and simulates replacing one cell; a missing key changes nothing |
| Simulation.RemoveRow | executor/delete_executor.cpp:75-79 | DELETE by key simulates removing the row |
| Simulation.SelectRefines | executor/select_executor.cpp:106-122 | SELECT by key answers the row with its column names and types, or nothing |
| Simulation.StoredExactly | executor/insert_executor.cpp:60-71 | a row is in the plain database exactly when its key is stored; its key column is its key |
| Simulation.RecoversDb | meta/database.cc:68-91 | recovery rebuilds the tables of a database as they were: columns, types, maps |
| Engine.RecoveredOnce | meta/database.cc:68-91 | of two stored tables with one name the first is kept; a text or key that cannot be read ends the recovery |
| Simulation.RestartRebuilds | meta/dbms.cc:76-100 | a restart rebuilds the whole catalog exactly and makes the greatest database name current |
| Simulation.RestartUnnoticedExactly | meta/dbms.cc:86-94 | a restart goes unnoticed exactly when the current database has the greatest name |
| Simulation.FreshStart | meta/dbms.cc:81-85 | on a store without its keys the process starts with the empty database "default" |
| Simulation.StepRefines | executor/insert_executor.cpp:54-74 | every statement and restart is defined, answers like the plain database and keeps the states related |
| Simulation.RunRefines | executor/update_executor.cpp:50-78 | the same over every legal run |
| Simulation.ServiceRefines | meta/dbms.cc:27-30 | the same from the very first start on a foreign or empty store |
| Simulation.OnlyTheNamedRow | executor/delete_executor.cpp:75-79 | a row statement changes no other row, no stored database or table, and nothing in memory |
| Simulation.RecreateDivergesExactly | meta/database.cc:37-52 | re-creating a table leaves memory and store in agreement exactly when the columns are the same |
| StorageWitnesses.RestartMovesAway | meta/dbms.cc:86-94 | from a store without its keys: a database named above "default" and a restart, and the current database is another one |
| StorageWitnesses.RecreateDiverges | meta/database.cc:37-52 | a run from such a store after which memory and store disagree on a table's columns |
| StorageWitnesses.LimitIsOff | executor/select_executor.cpp:123-177 | three rows inserted from such a store: with limit 1, LIKE answers two of them, and `>` misses a row that is greater |
| Queries.ListingExists | executor/select_executor.cpp:155-158 | the ordered listing of a table's matching keys, of which the query results speak, always exists |
| Queries.ScanFinds | executor/select_executor.cpp:155-158 | a scan under a table's key prefix finds exactly the matching rows, in key order |
| Queries.LikeReturns | executor/select_executor.cpp:150-177 | LIKE answers the rows whose key starts with the prefix, all without a limit and the first limit + 1 with one |
| Queries.LikeIsPrefix | executor/select_executor.cpp:150-177 | `p%`, and `p` itself when it does not end in `%`, answer the rows whose key starts with `p`: all without a limit, the first limit + 1 with one |
| Queries.LimitExceededExactly | executor/select_executor.cpp:163-166 | more rows than the limit come back exactly when more match |
| Queries.GreaterReturns | executor/select_executor.cpp:123-149 | `>` answers, of the first limit + 1 rows, those with a greater key |
| Queries.GreaterIsFilterExactly | executor/select_executor.cpp:123-149 | it is the filter over all rows exactly when there are at most limit + 1 or the last key is not greater |
| Executors.DataBase.CreateTable | meta/database.cc:35-56 | inserts the table unless it is there, counts it, and stores its schema in any case |
| Executors.DataBase.RecoverFromPmemKV | meta/database.cc:68-91 | reads exactly the scanned tables back, or fails where decoding throws |
| Executors.DataBase.GetTable | meta/database.cc:118-127 | the table, or none |
| Executors.Dbms.CreateDataBase | meta/dbms.cc:34-43 | inserts a new object unless one is there, and stores the name in any case |
| Executors.Dbms.SwitchDB | meta/dbms.cc:114-125 | moves the current pointer to a known database |
| Executors.Dbms.CreateTable | meta/database.cc:35-56 | changes the current database object and, through the alias, the catalog |
| Executors.Dbms.RecoverFromPmemKV | meta/dbms.cc:76-100 | rebuilds the catalog from the scans, or creates the default database; the current database is in the catalog when the stored names differ |
| Executors.Executor.InsertRow | executor/insert_executor.cpp:54-74 | fills the vector in place through the index map and sets the joined row |
| Executors.Executor.UpdateRow | executor/update_executor.cpp:50-78 | get, split, overwrite one cell, join, set |
| Executors.Executor.DeleteRows | executor/delete_executor.cpp:75-79 | deletes the one key |
| Executors.Executor.DecodeRowResult | executor/select_executor.cpp:59-74 | the index loop names and types every cell |
| Executors.Executor.SelectEquals | executor/select_executor.cpp:106-122 | the row under the key, or nothing |
| Executors.Executor.SelectGreater | executor/select_executor.cpp:123-149 | the index loop over the flattened reply, with its break |
| Executors.Executor.SelectLike | executor/select_executor.cpp:150-177 | the index loop over the flattened reply, with its break |
| RespProtocol.ReadsLine | network/proto_parser.cc:29-63 | a number line is read whole |
| RespProtocol.ReadsCutLine | network/proto_parser.cc:29-63 | on every cut of a number line: wait, or, with three or more digits only, run two past the end with the value of the digits seen |
| RespProtocol.NumberExactly | network/proto_parser.cc:29-63 | digits are read exactly when CR LF follows; a CR at the very end waits, anything else is an error |
| RespProtocol.StringExactly | network/proto_parser.cc:116-148 | a string that is there is read exactly when CR LF follows; otherwise it is an error that stores nothing |
| RespProtocol.MarkExactly | network/proto_parser.cc:87-96 | bytes that do not start with their mark are an error |
| RespProtocol.ReadsRequest | network/proto_parser.cc:75-132 | a request is parsed to exactly its strings and its end, whatever follows and whatever parameters were left |
| RespProtocol.PipelineRoundTrips | network/proto_parser.cc:65-162 | pipelined requests come back list by list, with a reset between them and no stale parameter |
| RespProtocol.Resumes | network/proto_parser.cc:98-162 | for any bytes behind a header: a call that waits inside its stream and a second on more bytes are one call on all of them |
| RespProtocol.PiecesDoNotMatter | network/proto_parser.cc:75-162 | the same for any number of pieces |
| RespProtocol.CutInsensitive | network/proto_parser.cc:75-162 | a valid request in any number of pieces behind its header: the last call returns the strings and the end exactly when no cut leaves three or more digits of a length, but not all; every early call then waits |
| RespProtocol.HeaderCutExactly | network/proto_parser.cc:87-96 | a cut inside the header is harmless exactly when it leaves under three bytes, or all of three or more digits |
| RespProtocol.CutExactly | network/proto_parser.cc:98-162 | one cut behind the header: the first call waits, and the second parses as one call on everything exactly when the cut is not such a cut |
| Resp.GetIntUntilCRLF | network/proto_parser.cc:29-63 | the digit loop computes the specification's number, pointer and result |
| Resp.ProtoParser.Reset | network/proto_parser.cc:65-73 | back to the initial state with the first three parameters kept, or all when there are fewer |
| Resp.ProtoParser.ParseRequest | network/proto_parser.cc:75-85 | the fields, pointer and result of the specification |
| Resp.ProtoParser.ParseMulti | network/proto_parser.cc:87-96 | the pointer stays behind the star on wait |
| Resp.ProtoParser.ParseStrlist | network/proto_parser.cc:98-114 | the loop over the parameters, grown and cut to size |
| Resp.ProtoParser.ParseStr | network/proto_parser.cc:116-132 | a length unless one is remembered, then the value |
| Resp.ProtoParser.ParseStrval | network/proto_parser.cc:134-148 | waits for the whole string, checks its CRLF, stores it |
| Resp.ProtoParser.ParseStrlen | network/proto_parser.cc:150-162 | the pointer is restored unless the length was read |
| Resp.FormatBulk | network/common.cc:55-70 | appends one bulk string and returns its size |
| Resp.PreFormatMultiBulk | network/common.cc:76-88 | appends the header line |
| Resp.FormatMultiBulk | network/common.cc:90-96 | appends all strings and returns the sum of the sizes |
| WireCodec.LenRoundTripsExactly | network/protocol_buffer.cc:80-161 | a length is read back exactly below 2^16; up to 2^24 modulo 2^16 |
| WireCodec.LenLayout | network/protocol_buffer.cc:148-161 | the markers and widths of the four forms, and the number their bytes stand for |
| WireCodec.LittleEndian | network/protocol_buffer.cc:119-146 | two-, three-, four- and eight-byte numbers are written low byte first |
| WireCodec.StrRoundTripsExactly | network/protocol_buffer.cc:102-173 | a string is read back exactly when shorter than 2^16 |
| WireCodec.TypeRoundTripsExactly | network/type.h:37-147 | wire code and flags give the type back exactly for the thirty types of the table |
| WireCodec.FieldRoundTripsExactly | network/field.cc:80-142 | a field packet is read back exactly when strings, charset and decimals fit and the type is known with its own flags |
| WireCodec.FieldLayout | network/field.cc:112-142 | the bytes of a field packet: `def`, database, table, table, name, name, each behind its length |
| WireCodec.TailLayout | network/field.cc:112-142 | the thirteen bytes behind them: 12, charset, column length, type code, flags, decimals, two zeros |
| WireCodec.RowRoundTripsExactly | network/field.cc:163-182 | a row packet is read back exactly when every cell is shorter than 2^16 |
| WireCodec.EofRoundTrips | network/eof.cc:53-80 | EOF header, warnings and status are read back |
| WireCodec.RowIsNotEof | executor/select_executor.cpp:248-255 | no row of up to 255 bytes looks like EOF |
| ResultSets.DeframesExactly | executor/select_executor.cpp:250-255 | a client cuts the stream into the emitted packets exactly when no payload exceeds 255 bytes |
| ResultSets.EmittedParts | executor/select_executor.cpp:191-274 | header, fields, EOF, rows, EOF, numbered 1, 2, 3, ... modulo 256 |
| ResultSets.ResultSetRoundTrips | executor/select_executor.cpp:184-276 | from the bytes a client recovers every cell, and for every column its own name, the table and the database, type 6165, length 80 and charset 33 |
| Packets.Writer.WriteLenEncode | network/protocol_buffer.cc:148-161 | the four branches write the specification's bytes |
| Packets.Writer.WriteLenEncodeString | network/protocol_buffer.cc:169-173 | length, then bytes |
| Packets.Reader.ReadLenEncode | network/protocol_buffer.cc:80-100 | reads what the specification reads, where it is defined |
| Packets.Reader.ReadLenEncodeString | network/protocol_buffer.cc:110-115 | reads the length and that many bytes |
| Packets.FieldPacket.Pack | network/field.cc:112-142 | appends the fields in wire order |
| Packets.FieldPacket.UnPack | network/field.cc:80-110 | assigns the fields in wire order, type from code and flags |
| Packets.RowPacket.Pack | network/field.cc:163-169 | appends every cell |
| Packets.RowPacket.UnPack | network/field.cc:175-182 | appends as many cells as there are columns |
| Packets.EofPacket.Pack | network/eof.cc:53-64 | the five bytes |
| Packets.EofPacket.UnPack | network/eof.cc:66-80 | reads the three fields |
| Packets.SendFrame | executor/select_executor.cpp:250-258 | length byte, two zeros, sequence number, payload |
| Packets.SendResultSet | executor/select_executor.cpp:184-276 | sends exactly the frames of the emitted packets, the sequence number wrapping at 256 |
| TomlLexer.LiteralRoundTripsExactly | network/toml.h:694-911 | a quoted, escaped string is lexed back and the stream stands behind it, exactly unless the empty string is followed by a third quote |
| TomlRoundTrip.ReadsInt | network/toml.h:991-1033 | every 64-bit integer is lexed back |
| TomlRoundTrip.ReadsValue | network/toml.h:1664-1700 | every printed leaf, nested arrays included, is parsed back up to what follows |
| TomlRoundTrip.ReadsKey | network/toml.h:1639-1660 | every non-empty key, bare or quoted, is lexed back |
| TomlRoundTrip.ReadsKeyLine | network/toml.h:2223-2248 | a key line adds its entry, unless the key is empty or, lexed as a path, finds a value |
| TomlRoundTrip.HeaderExactly | network/toml.h:2145-2221 | in any tree a dotted header moves to the table at its path exactly when nothing but tables, and arrays that end in one, is in the way: what is missing is made, a table that is there is entered again, `[[...]]` pushes one more |
| TomlRoundTrip.ReadsHeader | network/toml.h:2145-2221 | a printed header opens its table |
| TomlRoundTrip.ReadsTables | network/toml.h:1725-1738 | a printed array of tables is pushed, entered and filled table by table |
| TomlRoundTrip.KeepGroup | network/toml.h:1713-1724 | adding subtables after the leaves puts each in its place of the key order |
| TomlRoundTrip.ReadsTable | network/toml.h:1701-1741 | everything printed of a table, at any depth and indentation, is parsed into its place |
| TomlRoundTrip.RoundTripsExactly | network/toml.h:1662-1746 | parsing what the printer writes, nested tables and arrays of tables included, gives the value exactly when its keys are fresh, and fails otherwise |
| TomlRoundTrip.BareKeysRoundTrip | network/toml.h:2119-2143 | tables of non-empty bare keys always come back |
| TomlRoundTrip.TrailingBlankRejected | network/toml.h:2241-2244 | a two-key table the printer writes and the parser rejects as a duplicate |
| TomlLaws.CommentEnds | network/toml.h:786-794 | a comment ends in front of its newline, or at the end of the document |
| TomlLaws.BlanksSkipped | network/toml.h:1142-1146 | spaces, tabs and carriage returns between tokens do not matter |
| TomlLaws.CommentLineIgnored | network/toml.h:1148-1151 | an empty line or a comment line anywhere in a document leaves the parsed tree the same |
| TomlLaws.CommentInFront | network/toml.h:1148-1151 | so does one in front of the document |
| TomlLaws.CommentBehindValue | network/toml.h:2223-2248 | so does a comment behind a value |
| TomlLaws.LineEndsExactly | network/toml.h:2223-2248 | a key line ends with the line or the document; anything else behind its value is an error |
| TomlLaws.HeaderEndsExactly | network/toml.h:2145-2221 | so does a header, and two brackets need two |
| TomlLaws.MarkSkippedExactly | network/toml.h:733-755 | a byte order mark is skipped, half a one rejected |
| TomlLaws.SingleQuotedExactly | network/toml.h:913-972 | a text between single quotes stands for itself, unless the empty one meets a third quote |
| TomlLaws.TripleSingle | network/toml.h:913-972 | between three single quotes too, without a newline right behind the first three |
| TomlLaws.TripleDouble | network/toml.h:796-911 | between three double quotes, without a blank rest of the first line |
| TomlLaws.LoneQuotes | network/toml.h:796-972 | one or two quotes inside three stand for themselves |
| TomlLaws.NeverClosed | network/toml.h:796-972 | a string that is not closed is an error |
| TomlLaws.EscapesExactly | network/toml.h:824-885 | the six short escapes, and no others but `u`, `U` and a line end |
| TomlLaws.LinesJoin | network/toml.h:872-878 | a backslash at the end of a line joins it with the next without the blanks between |
| TomlLaws.CodePointRead | network/toml.h:843-862 | `u` takes four hexadecimal digits, `U` eight |
| TomlLaws.ShortCodePoint | network/toml.h:843-862 | fewer hexadecimal digits are an error |
| TomlLaws.WritesUtf8Exactly | network/toml.h:569-610 | a code point becomes its shortest UTF-8 sequence exactly from 1 to U+10FFFF |
| TomlLaws.NumberRead | network/toml.h:991-1033 | signs, a plus included, and single underscores are read; what 64 bits cannot hold becomes the nearest they can |
| TomlLaws.StrayUnderscore | network/toml.h:991-1033 | an underscore without digits on both sides is no integer |
| TomlLaws.WordsExactly | network/toml.h:991-1010 | of bare words only `true` and `false` are values |
| TomlLaws.ValuesExactly | network/toml.h:2264-2292 | strings of every kind and integers are values, marks are errors, and inline tables and other numbers end as unmodelled |
| TomlLaws.ArrayRead | network/toml.h:2317-2353 | an array may be laid out over lines, with or without commas between its elements and behind the last |
| TomlLaws.MixedArrayRejected | network/toml.h:2334-2339 | elements of two types are rejected |
| TomlLaws.FindsByPath | network/toml.h:2241-2244 | the duplicate test finds an escaped key's own entry, and behind a dot goes on in it when it is a table |
| TomlLaws.FindsNothing | network/toml.h:2241-2244 | it finds nothing when anything else is behind a key, or no key in front |
| TomlLaws.LeafPrinted | network/toml.h:1701-1712 | a leaf is printed on an indented line of its own |
| TomlLaws.TablePrinted | network/toml.h:1713-1724 | a table is printed under its dotted key, one step further in |
| TomlLaws.ArrayOfTablesPrinted | network/toml.h:1725-1738 | the tables of an array are printed one by one under the same key |
| TomlObjects.EscapeString | network/toml.h:694-724 | the loop escapes every character |
| TomlObjects.Lexer.NextStringDoubleQuote | network/toml.h:796-911 | the loops over one- and multi-line strings with their escapes |
| TomlObjects.Lexer.NextStringSingleQuote | network/toml.h:913-972 | the loops over literal strings |
| TomlObjects.Lexer.NextKey | network/toml.h:975-989 | the longest bare key |
| TomlObjects.Lexer.NextValue | network/toml.h:991-1033 | booleans and integers; anything else is outside |
| TomlObjects.Lexer.NextToken | network/toml.h:1139-1192 | skips blanks and comments and dispatches |
| TomlObjects.Parser.ParseArray | network/toml.h:2317-2353 | the element loop with its optional commas and type check |
| TomlObjects.Parser.ParseGroup | network/toml.h:2145-2221 | the navigation loop behind one bracket or two |
| TomlObjects.Parser.ParseKeyValue | network/toml.h:2223-2248 | key, equals, value, end of line, duplicate test, entry |
| TomlObjects.Parser.Parse | network/toml.h:2119-2143 | the document loop |
| TomlObjects.ParseStream | network/toml.h:496-510 | byte order mark, first token, document |
| TomlObjects.Write | network/toml.h:1662-1746 | appends exactly the specification's text, element by element and entry by entry |

## Left out

- ThreadPoolObject.ThreadPool.JoinAll: does not model the waits for the joined threads and the monitor; ShutdownDrains starts where all workers have exited.
- ThreadPoolProtocol.MonitorSafeExactly: bounded to fewer than 2^30 threads and queued tasks, since beyond them the unsigned difference can come out small again.
- CircularBuffers.CircularBuffer.PushDataAt: modelled at offset 0, the only one its callers use; a ring of more than 2^31 bytes takes at most 2^31 - 1 at once, since the source counts the second piece in an `int`.
- SendQueue.SendIsFifo: takes each Write, ProcessBuffer and Skip as one atomic step; see Assumptions.
- Executors.Dbms.RecoverFromPmemKV: with a database name stored twice the current pointer leaves the catalog; the state after recovery is stated all the same, `Valid` only for names that differ, which every related store has (Simulation.DbsScanned).
- Executors.DataBase.CreateTable: holds its tables as values, so the aliasing of a DataTable by its callers is not modelled.
- Queries.LikeReturns: glob characters in the value are assumed away; an empty LIKE value is undefined in the source (`back()` of an empty string); the model takes it as the empty prefix.
- Refinement.Defined: an INSERT or UPDATE outside its vector is undefined in the source and not given a result.
- TomlParser.Parse: the tree is a value and `currentValue` a path into it, so in-place update of the tree is not modelled; error messages and line numbers are dropped.
- TomlLexer.NextValue: doubles and times are one token outside the model.
- TomlObjects.Lexer.NextValue: doubles and times are one token outside the model; so are they in the parser and the printer.
- TomlObjects.ParseStream: inline tables, which the printer never writes, end as unmodelled, and so do doubles and times.
- WireCodec.GetLen: values from 2^24 on and the NULL marker are Undefined, because the source shifts an `int` by 32 and more and returns a function's address.
- Packets.Reader.ReadLenEncode: says nothing of the eight-byte form and the NULL marker for that reason.
- Packets.Reader.ReadLenEncodeString: says nothing of lengths in those two forms.
- DELETE without WHERE, DropTable and DropDataBase: the scan has no wildcard and dropped entries are overwritten with empty strings, so they have no clean contract.
- SELECT without WHERE: its limit is never set, and without one it is LIKE with an empty prefix.
- The generated SQL lexer and parser, statement analysis and the debug printers: statements are taken as analysed.
- Epoll, sockets, signals, accept loops, the greeting and authentication packets, OK and error packets, logging.
- The hiredis client and the remote server, replaced by the assumptions on the store.
- UnboundedBuffer::Shrink and StackBuffer: not used by the modelled paths.
