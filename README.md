# floor-broker, modelled in Dafny

floor-broker gathers readings from a floor made of 6x6 sensing modules.

- **Modules.** Each module sends lines of comma-separated integers over a serial port. A background reader queues every line it receives.
- **The floor.** Once every module has data, the floor aggregator takes each module's newest line. It lays the line's numbers into a 6x6 grid through the module's orientation table: the identity table, or the table turned half way. It then stitches the grids into one matrix, following the configured layout.
- **Frames.** The serial messenger turns the newest matrix into a frame `<epoch>:<row>;<row>;...`, with the cells of a row separated by `,`.
- **Replay.** A replayer can send a recorded file of such frames again. Each line goes out once the wall clock has advanced, since the pass started, by at least its epoch less the epoch of the first line.
- **Brokers.** Brokers pass every frame on:
  - to WebSocket clients. A broadcast reads each connection and writes to it. It drops a connection that sent a close frame, one whose write was aborted, and one that can no longer be written after the write. It panics on anything unexpected;
  - to a fixed list of UDP targets.

The project models this core:

| file | module | what |
|---|---|---|
| `wrappers.dfy` | `Wrappers` | `Option`, `Result` |
| `text.dfy` | `Text` | the parts of Rust's string library the program uses: `split`, `join`, `replace`, `to_string`, `parse::<i32>`, `parse::<u128>` |
| `cell_index_map.dfy` | `CellIndexMap` | the two orientation tables |
| `latest_queue.dfy` | `LatestQueue` | the lock-protected queue, read by draining it |
| `floor_module.dfy` | `FloorModules` | one module: its queue and `read_cells` |
| `floor.dfy` | `Floors` | `Floor`: opening the modules, one turn of the stitching loop, `read`, and the frame text |
| `replay.dfy` | `Replay` | `shallow_parse_data` and the replay pass, paced against a sequence of clock readings |
| `broker.dfy` | `Brokers` | the WebSocket acceptor and `broadcast`, and the UDP `broadcast` |

Every panic inside the modelled operations is modelled as an `Err` or fault value. This covers a failed `parse` under `unwrap` or `expect`, a `u128` subtraction below zero, an index out of range and an explicit `panic!`. The panics of locks, channels, serial ports, the clock and the network are outside the model (see "Left out"). The fault types are:
- `Fault` on the floor side;
- `ReplayFault` on the replay side, carried by the replay's `Ending`; the same `Ending` also records a clock that went backwards (`ClockWentBack`) and readings that ran out (`ClockExhausted`);
- `Panic` in the WebSocket broker;
- `Option<string>` in the UDP broker: the error of the first failed `send_to`, whose `unwrap` panics and ends `broadcast`.

Integers keep their Rust ranges as the subset types `i32` and `u128`.

Some behaviour of the code that the model states outright:
- **Two modules side by side, both sending 1 to 36.** The left one has direction 0 and the right one is turned half way. Then the floor's top row is `[1, 2, 5, 6, 9, 10, 36, 35, 32, 31, 28, 27]`, because the tables run over 2x2 blocks (`Floors.TwoModuleScenario`).
- **The first line of a replayed file.** It only sets the origin epoch and is never sent (`Replay.PlanSkipsFirst`).
- **A serial line with fewer than 36 numbers.** It is accepted, and the cells it does not reach stay 0 (`FloorModules.DecodePlaces`).
- **The UDP broadcast.** It stops at the first failed send, and the later targets get nothing (`Brokers.UdpBroker.Broadcast`).

## Model

| member | source | states |
|---|---|---|
| Text.Split | src/floor_messanger.rs:143 | `split` with a one-character pattern always yields at least one piece |
| Text.JoinAll | src/floor_messanger.rs:276-279 | the empty list joins to ""; splitting the join of a non-empty list of separator-free pieces on the separator gives back the pieces |
| Text.SplitWithout | src/floor_messanger.rs:74 | a string without the separator splits into itself alone |
| Text.SplitAfterPiece | src/floor_messanger.rs:74 | a piece without the separator, then the separator, is the first piece of the split |
| Text.SplitJoin | src/floor_messanger.rs:276-279 | splitting a join gives back the pieces when none holds the separator |
| Text.JoinSplit | src/floor_messanger.rs:143 | joining the pieces of a split gives back the string, and no piece holds the separator |
| Text.RemoveChar | src/floor_messanger.rs:142 | `replace("\n", "")` leaves no newline, never lengthens, and changes nothing in a string without one |
| Text.ShowNat | src/floor_messanger.rs:280 | `to_string` of a non-negative number: at least one digit, no leading zero, and the digits denote the number |
| Text.ShowI32 | src/floor_messanger.rs:274 | `to_string` of an `i32` starts with '-' exactly for negative values, and is all digits otherwise |
| Text.ParseU128 | src/floor_messanger.rs:75 | `parse::<u128>` accepts only a non-empty string without '-', ':' or ',' |
| Text.ParseI32 | src/floor_messanger.rs:144 | `parse::<i32>` accepts only a non-empty string without ':', ',' or ';' |
| Text.ShowNatHasNoSeparator | src/floor_messanger.rs:280 | a printed number holds none of ':', ',' and ';' |
| Text.ShowI32HasNoSeparator | src/floor_messanger.rs:274 | a printed `i32` holds none of ':', ',' and ';' |
| Text.ParseShowU128 | src/floor_messanger.rs:75 | parsing a printed epoch gives the epoch back |
| Text.ParseShowI32 | src/floor_messanger.rs:144 | parsing a printed cell value gives the value back |
| CellIndexMap.HalfTurn | src/floor_messanger.rs:100-112 | the half turn of a grid position stays in the grid and gives back the original when applied again |
| CellIndexMap.BijectionFromInverse | src/floor_messanger.rs:85-112 | a 36-entry table with a two-sided inverse is a bijection onto the 6x6 grid |
| CellIndexMap.IdentityUndone | src/floor_messanger.rs:85-97 | every entry of `CELL_INDEX_MAP` is in the grid and maps back to its own index through the block index |
| CellIndexMap.IdentityReaches | src/floor_messanger.rs:85-97 | every grid position is the entry of `CELL_INDEX_MAP` at its block index |
| CellIndexMap.IdentityIsBijection | src/floor_messanger.rs:85-97 | `CELL_INDEX_MAP` sends 0..35 to pairwise distinct positions and covers the whole 6x6 grid |
| CellIndexMap.RotatedIsHalfTurn | src/floor_messanger.rs:85-112 | both tables have 36 entries, and `CELL_INDEX_MAP_180[i]` is the half turn `HalfTurn(CELL_INDEX_MAP[i])` of the identity entry |
| CellIndexMap.HalfTurnOfBijection | src/floor_messanger.rs:100-112 | the half turn of a bijective table is bijective |
| CellIndexMap.RotatedIsBijection | src/floor_messanger.rs:100-112 | `CELL_INDEX_MAP_180` is a bijection onto the 6x6 grid |
| CellIndexMap.TableFor | src/floor_messanger.rs:147-151 | direction 0 selects `CELL_INDEX_MAP`, any other value `CELL_INDEX_MAP_180`; every entry is in the grid |
| CellIndexMap.TableInverse | src/floor_messanger.rs:147-155 | the table chosen for a direction and the position-to-index function are inverse to each other |
| LatestQueue.Newest | src/floor_messanger.rs:162-169 | the last item popped is None exactly for an empty queue, and otherwise the last one pushed |
| LatestQueue.LatestWins | src/floor_messanger.rs:162-169 | whatever was queued before, the newest item is the one pushed last |
| LatestQueue.Latest.constructor | src/floor_messanger.rs:116 | a new queue is empty |
| LatestQueue.Latest.Push | src/floor_messanger.rs:126 | `push_back` appends the item and keeps the rest |
| LatestQueue.Latest.DataAvailable | src/floor_messanger.rs:232-234 | `data_available` holds exactly when a read would yield an item |
| LatestQueue.Latest.Read | src/floor_messanger.rs:162-169 | `read` empties the queue and returns its newest item; None exactly when nothing was queued |
| FloorModules.Tokens | src/floor_messanger.rs:142-143 | a line gives at least one token, none holds ',', and the tokens joined back with ',' are the line without its newlines |
| FloorModules.ParseTokens | src/floor_messanger.rs:144-145 | all tokens parse and the values are theirs in order, or the error names the first token that does not parse |
| FloorModules.Scatter | src/floor_messanger.rs:153-156 | the grid `read_cells` fills from at most 36 numbers is 6x6 |
| FloorModules.Gather | src/floor_messanger.rs:147-155 | reading a grid back in table order gives 36 numbers |
| FloorModules.Decode | src/floor_messanger.rs:139-160 | a line that decodes gives a 6x6 grid |
| FloorModules.DecodeCells | src/floor_messanger.rs:140-158 | the body of `read_cells` on a line computes `Decode` |
| FloorModules.StoreCells | src/floor_messanger.rs:153-156 | the `for` loop stores number k at table entry k of an all-zero grid; a 37th number is a panic |
| FloorModules.ScatterStep | src/floor_messanger.rs:154-156 | storing one more number changes only the cell its table entry names |
| FloorModules.DecodeFails | src/floor_messanger.rs:141-156 | a line fails exactly when a token does not parse as `i32` or there are more than 36 tokens |
| FloorModules.DecodePlaces | src/floor_messanger.rs:147-156 | a decoded line puts token i at the table's entry i and leaves every other cell 0 |
| FloorModules.ScatterPlacesAll | src/floor_messanger.rs:153-156 | the stored grid holds number i at entry i, and 0 where no number went |
| FloorModules.GatherScatter | src/floor_messanger.rs:147-156 | storing 36 numbers and reading them back in table order gives them back |
| FloorModules.ScatterGather | src/floor_messanger.rs:147-156 | reading a grid in table order and storing the numbers again gives back the grid |
| FloorModules.OrientationRoundTrip | src/floor_messanger.rs:147-156 | both round trips hold for the table of either direction |
| FloorModules.NumbersText | src/floor_messanger.rs:273-276 | numbers rendered with `to_string` and joined with ',' hold no newline, ':' or ';', and the comma-separated pieces are the rendered numbers |
| FloorModules.NumbersRoundTrip | src/floor_messanger.rs:141-145 | numbers joined with ',' split and parse back to themselves, and the text holds no newline, ':' or ';' |
| FloorModules.DecodeSerialLine | src/floor_messanger.rs:139-158 | a line of 36 numbers plus a newline decodes to the grid that stores them, and reading that grid in table order gives the numbers back |
| FloorModules.FloorModule.constructor | src/floor_messanger.rs:114-133 | a module keeps its direction and starts with an empty queue of its own |
| FloorModules.FloorModule.DataAvailable | src/floor_messanger.rs:135-137 | a module has data exactly when a read of its queue would yield a line |
| FloorModules.FloorModule.ReadCells | src/floor_messanger.rs:139-160 | `read_cells` drains the queue and decodes its newest line; None when the queue was empty |
| Floors.FirstLongRow | src/floor_messanger.rs:214-220 | the first layout row longer than the first one |
| Floors.Stitched | src/floor_messanger.rs:213-224 | one turn's matrix: it exists exactly for a non-empty layout with no row longer than the first, and it is then 6R x 6C; an empty layout panics, and any other failure names a row longer than the first |
| Floors.Stitch | src/floor_messanger.rs:213-224 | the four nested loops build the stitched matrix, or report the panic the first out-of-range write raises |
| Floors.StitchedPlaces | src/floor_messanger.rs:213-224 | stitching succeeds exactly on a non-empty layout with no row longer than the first; the matrix is then 6R x 6C, cell (i, j) of module (mr, mc) is at (6*mr + i, 6*mc + j), and uncovered positions are 0 |
| Floors.RowTexts | src/floor_messanger.rs:270-277 | one text per matrix row, none holding ';' or ':' |
| Floors.FrameText | src/floor_messanger.rs:268-280 | the frame holds exactly one ':', right after the epoch's digits, and for a matrix with rows what follows the ':' splits on ';' into the row texts |
| Floors.ParseRowTexts | src/floor_messanger.rs:270-279 | the row texts split and parse back to the rows and hold no ';' or ':' |
| Floors.FrameRoundTrip | src/floor_messanger.rs:268-280 | splitting a frame on ':', ';' and ',' and parsing gives back the epoch and the matrix |
| Floors.Collect | src/floor_messanger.rs:217 | `unwrap` in order: all values when every outcome is Ok, otherwise the error of the first failing one |
| Floors.CollectExtend | src/floor_messanger.rs:217 | one more success extends the collected values by its own |
| Floors.CollectStop | src/floor_messanger.rs:217 | a failure after a prefix of successes is the failure of the whole |
| Floors.LayoutGrids | src/floor_messanger.rs:215-217 | a decoded layout has one row of grids per layout row, each grid 6x6, and every module's line decoded |
| Floors.FloorCycle | src/floor_messanger.rs:213-224 | a turn yields a matrix only when every module's line decodes; the matrix has six rows per layout row; an empty layout panics |
| Floors.QueuesSnoc | src/floor_messanger.rs:194-203 | the queues of a layout with one more row are the old layout's queues followed by the queues of the row added |
| Floors.ReadRow | src/floor_messanger.rs:216-217 | reading the modules of a row left to right decodes their newest lines and stops at the first panic; with no panic every queue of the row is emptied, after a panic the queues up to the failing module are emptied and the rest are untouched |
| Floors.Floor.constructor | src/floor_messanger.rs:190-192 | the floor's matrix queue starts empty |
| Floors.Floor.DataAvailable | src/floor_messanger.rs:232-234 | the floor has data exactly when a read of its queue would yield a matrix |
| Floors.Floor.Read | src/floor_messanger.rs:236-243 | `Floor::read` empties the queue and returns the newest matrix, None exactly when nothing was queued |
| Floors.Floor.Cycle | src/floor_messanger.rs:204-225 | once every module has data, one turn decodes every module's newest line, stitches them and pushes the matrix; on a panic nothing is pushed |
| Floors.OpenedSnoc | src/floor_messanger.rs:195-203 | adding a correctly opened row keeps the opened layout's invariant |
| Floors.OpenRow | src/floor_messanger.rs:197-202 | one fresh module per port with the configured direction, or a panic at the first position that lacks a direction |
| Floors.OpenModules | src/floor_messanger.rs:194-203 | the modules of every layout row, each with its direction and a fresh empty queue, exactly when every position has a direction; otherwise the panic at the first one, row by row |
| Floors.NextFrame | src/floor_messanger.rs:262-280 | one turn of the serial messenger drains the floor queue and formats its newest matrix with the epoch |
| Floors.CountingTopRows | src/floor_messanger.rs:85-112 | a module sending 1 to 36 has top row [1,2,5,6,9,10] turned one way and [36,35,32,31,28,27] the other |
| Floors.SideBySide | src/floor_messanger.rs:213-224 | two grids side by side stitch into 6 rows, each the two grids' rows joined |
| Floors.SideBySideTop | src/floor_messanger.rs:213-224 | with those top rows, the stitched top row is their concatenation |
| Floors.PairCycle | src/floor_messanger.rs:204-225 | a one-row layout of two modules makes the matrix of their two grids |
| Floors.PairTopRow | src/floor_messanger.rs:204-225 | with those top rows, the turn yields a 6x12 matrix whose first row joins them |
| Floors.TwoModuleScenario | src/floor_messanger.rs:204-225 | two modules, the right one turned half way, both sending 1 to 36: a 6x12 matrix with top row [1,2,5,6,9,10,36,35,32,31,28,27] |
| Replay.ShallowParse | src/floor_messanger.rs:73-77 | `shallow_parse_data` keeps the whole line unchanged, and a failure names that line |
| Replay.ShallowParseBefore | src/floor_messanger.rs:73-77 | for a line with a ':', the epoch is the `u128` before the first ':', and a line whose prefix does not parse is refused with `BadEpoch` |
| Replay.ShallowParseWhole | src/floor_messanger.rs:73-77 | a line without ':' is parsed whole as the epoch, or refused with `BadEpoch` |
| Replay.ShallowParseFrame | src/floor_messanger.rs:73-77 | a frame the serial messenger wrote parses to its own epoch and itself |
| Replay.Classify | src/floor_messanger.rs:37-41 | an unreadable line is skipped and nothing else is; a line that is sent is sent unchanged |
| Replay.PlanAfter | src/floor_messanger.rs:36-49 | the loop over the lines after the first sends at most one line per line read, and the only panics inside it are a bad epoch and an epoch before the origin |
| Replay.PlanAfterAt | src/floor_messanger.rs:36-49 | the plan from line i on, one line at a time |
| Replay.PlanAfterReadable | src/floor_messanger.rs:36-49 | the lines sent are an in-order prefix of the readable lines; with no panic they are all of them, and there is no panic exactly when every readable line parses to an epoch no earlier than the first |
| Replay.PlanOf | src/floor_messanger.rs:32-49 | a file without lines panics with `EmptyFile` and an unreadable first line with `FirstLineUnreadable`, and only then; a pass over a non-empty file sends fewer lines than the file has |
| Replay.PlanSkipsFirst | src/floor_messanger.rs:32-36 | the first line is never sent: a pass sends an in-order prefix of the readable lines after it |
| Replay.ClassifyStamped | src/floor_messanger.rs:37-40 | a line that parses to an epoch no earlier than the first is sent at the difference |
| Replay.PlanAfterAllSent | src/floor_messanger.rs:36-49 | lines each of which is sent make a plan of all of them, in order, without panic |
| Replay.PlanAfterStamped | src/floor_messanger.rs:36-49 | lines that parse to their epochs, none before the origin, are all sent at their epoch less the origin |
| Replay.ReplayOfRecording | src/floor_messanger.rs:29-49 | replaying a recording of frames sends every frame after the first, each at its epoch less the first epoch, and ends at the end of the file |
| Replay.WaitFor | src/floor_messanger.rs:42-47 | the busy wait stops at the first reading that reaches the offset, at a reading below the start (an underflow), or when the readings run out, and every reading before it was still short of the offset |
| Replay.PacedStep | src/floor_messanger.rs:42-48 | a send released at its first sufficient reading extends the paced record |
| Replay.TracksStep | src/floor_messanger.rs:37-48 | one more line skips, ends the plan in its panic, or is the next planned send |
| Replay.Release | src/floor_messanger.rs:42-48 | waiting for one planned line either sends it or stops the pass because of the clock |
| Replay.Advance | src/floor_messanger.rs:37-48 | the loop body on one line keeps the pass in step with the plan, or ends it as the plan or the clock says |
| Replay.SendAfter | src/floor_messanger.rs:36-50 | the lines after the first are sent in order, each at the first reading that reaches its offset, until the file ends, a line panics, or the clock stops the pass |
| Replay.ReplayPass | src/floor_messanger.rs:27-50 | one pass follows the file's plan: no file lines, an unreadable or unparsable first line panic; otherwise `SendAfter` with the first epoch as origin |
| Brokers.FateOf | src/broker.rs:42-64 | a connection survives exactly when its read would block, its write succeeds and `can_write()` holds; a close frame drops it; an aborted write drops it; a non-close message, any other read error and any other write error panic with the matching message |
| Brokers.FirstFatal | src/broker.rs:42-64 | the first connection whose reaction panics, none before it |
| Brokers.SurvivorsEmbed | src/broker.rs:42 | the survivors are an order-preserving selection of the connections, never more of them |
| Brokers.WrittenToEmbed | src/broker.rs:43-52 | the connections written to are an order-preserving selection of the connections |
| Brokers.SurvivorsMembers | src/broker.rs:42-64 | a connection survives exactly when it had nothing to read, took the write and can still be written |
| Brokers.WrittenToMembers | src/broker.rs:43-52 | the message is written to a connection exactly when its read would block, so never to one that sent a close frame |
| Brokers.SurvivorsWrittenTo | src/broker.rs:52-63 | every survivor was written to |
| Brokers.SocketBroker.constructor | src/broker.rs:22 | a broker starts without connections |
| Brokers.SocketBroker.Accept | src/broker.rs:32 | accepting appends the connection and leaves the others in place; the TLS acceptor's push at line 90 is the same |
| Brokers.SocketBroker.Broadcast | src/broker.rs:41-65 | survivors in order up to the first panicking connection, that one and the rest left in place; the same text written to every reached connection in order; the panic of the first panicking one |
| Brokers.OneClosed | src/broker.rs:42-64 | among live connections, one that sent a close frame is dropped without a write, and the rest are kept and written to in order |
| Brokers.AllLive | src/broker.rs:42-64 | live connections all survive and are all written to |
| Brokers.SurvivorsAppend | src/broker.rs:42 | the survivors of two stretches are those of each, one after the other |
| Brokers.WrittenToAppend | src/broker.rs:52 | the connections written to in two stretches are those of each, one after the other |
| Brokers.FirstFailure | src/broker.rs:146-148 | the first target whose send fails, none before it |
| Brokers.UdpBroker.constructor | src/broker.rs:135-141 | the broker keeps the targets it was given |
| Brokers.UdpBroker.Broadcast | src/broker.rs:145-149 | the message goes once to each target in list order, up to and including the first failed send, which panics; the targets are unchanged |

## Left out

- Floors.Floor.Cycle: decodes every module's line before it stitches. The source decodes and writes module by module. The two differ only in which panic is reported when a module in a row longer than the first comes before a module with a bad line, and in which queues were already drained when the panic happens.
- Floors.Floor.Cycle: requires every module to have data. This stands for the busy-wait loop that waits for it; the loop itself is not modelled.
- Replay.WaitFor: the clock is a finite sequence of readings, so a pass can also end in `ClockExhausted`. The real clock never runs out.
- Replay.ReplayPass: the `start` reading is a parameter, taken before the file is opened.
- Replay.ReplayPass: a debug build panics on the `u128` subtraction `data_epoch - data_start_epoch` or `current_epoch() - start_epoch` going below zero. The model treats both as the end of the pass. A release build would wrap around instead; that is not modelled.
- Replay.ReplayPass: models one pass. The endless outer loop of the replay thread is left out, and so is a file that cannot be opened, on which the loop simply tries again.
- Serial ports, threads, channels and mutexes are left out, because they are I/O and concurrency:
  - the reader thread of a module is represented by `Latest.Push`;
  - the locked vectors are plain fields;
  - `tx.send(..).unwrap()` and its failure are not modelled;
  - the `lock().unwrap()` calls are not modelled. They panic only on a poisoned mutex.
- Floors.FrameRoundTrip: requires a matrix with at least one row and no empty row. A layout whose first row is empty stitches into empty rows. The frame of such a matrix does not parse back this way: an empty row's text is one empty token, which `parse::<i32>` refuses.
- Floors.OpenModules: opening a serial port can fail (`serialport::new(..).open().unwrap()`). That happens inside the reader thread and is not modelled.
- `Floor::read_config` is not part of this model. Reading and deserialising the JSON file is I/O through a foreign library.
- `current_epoch`, including its "Time went backwards" panic. The clock is given as readings.
- Brokers.SocketBroker.Broadcast: how each connection answers, its `Reaction`, is a parameter. Connections are known by an identity number. The WebSocket framing, the TCP stream and the peer address are not modelled, so neither are the `peer_addr().unwrap()` calls (src/broker.rs lines 45 and 57) or their panics.
- Brokers.UdpBroker.Broadcast: the payload is the message text itself rather than its UTF-8 bytes. Dafny strings carry no encoding.
- The listener and handshake code of both WebSocket brokers (`TcpListener::bind`, `accept`, `set_nonblocking`, TLS identity loading) and the binding of the UDP socket are left out. They are network and library calls, and so are the panics they raise.
- `WebSocketSecureBroker::broadcast` is left out. It writes to every connection from a new thread with `unwrap` and no pruning, so its point is concurrency.
- `println!` diagnostics are left out; they are logging only.
- src/main.rs is not part of this model. It only parses arguments and dispatches.
