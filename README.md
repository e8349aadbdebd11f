# gothlife example driver, modelled in Dafny

This project models `mainproc`, the simulation driver of the gothlife example
program. A GUI callback posts integer commands into a one-slot channel and
never blocks. A background worker polls that channel while idle. A command
there starts a run of at most `lifeMaxGens` = 50 generations. In each
generation the worker steps the Life engine, draws every cell as a 3x3 block
of pixels, uploads the frame, and polls the channel again. A command found at
that poll ends the run. When the run ends, the Start/Stop and Reset buttons go
back to their idle state.

Modules:

- `Wrappers` (wrappers.dfy): `Option`.
- `ControlQueue` (control_queue.dfy): the channel as a class `Channel`, with a non-blocking `Send` and `TryReceive`. Two pure functions go with it: `Offer` is one send on a slot value, and `SendAll` is a burst of sends.
- `Render` (render.dfy): pixels as `Rgba` values of bytes; frame allocation and the black fill; the 3x3 block of one cell (`DrawCell`); the cell loops of one generation (`DrawGrid`) over an `array2<Rgba>`.
- `RunModel` (run_model.dfy): the worker as a state machine on values. `Worker` holds the flag, the loop index, the `Step` and frame counts, the two buttons and the slot. `Advance` is one worker step and `Deliver` is one callback. `Exec` runs any interleaving of the two as a sequence of events. The invariant `Inv` and the lemmas about executions live here too.
- `Driver` (driver.dfy): the class `Simulation` with those fields. Its methods are the worker's steps (`IdlePoll`, `Generation`, `FinishRun`), the callback (`Post`), the generation loop (`Run`) and one pass of the outer loop (`Cycle`). Each step method ties its new state to `RunModel` through `Snap()`.

The Life engine is abstract. `Step` calls are counted. The cells that
`CurAlive` returns after the k-th `Step` are an `array2<bool>` parameter of
size `gridx/3` by `gridy/3`. Concurrency is reduced to interleaving: a command
can arrive between any two worker steps (`Command` events in `RunModel`). In
`Driver.Simulation.Run` it is the `arrivals` parameter, one optional command
per generation, and the `late` parameter, a command that lands after the last
stop poll and before the buttons are restored. Sleeps are dropped. Because
`Step` does not read the channel, a command that arrives during a generation
is modelled as arriving just before that generation.

Points where the code's behaviour may surprise:

- Any command value starts a run. The value 0 comes from Start and 1 from Reset. Any value found during a run stops it.
- The loop index `i` is still incremented after a stop, because Go's `break` inside `select` leaves only the `select`. Nothing resets it when the run ends; it is local to the loop.
- The frame's sides are `gridx` and `gridy` rounded down to multiples of 3 (`FrameSide`). They are not the grid size times an arbitrary scale.
- The first command wins when the slot is full. Later sends are dropped and each drop is counted.

One consequence of the code, proved as `RunModel.LateSignalRestarts`: a
command that arrives after the 50th generation's poll, but before the worker
is idle again, stays in the slot. The next idle poll then takes it as a new
start, although the button still read "Stop" when it was pressed.

## Model

| member | source | states |
|---|---|---|
| `ControlQueue.Offer` | _examples/example.go:85-89 | One non-blocking send. The slot is occupied afterwards. The value is dropped exactly when the slot was already full, and then the pending value stays. |
| `ControlQueue.SendAll` | _examples/example.go:84-89 | A burst of sends with no poll between them. At most one drop per send. The slot ends occupied exactly when it started occupied or something was sent. |
| `ControlQueue.Channel.constructor` | _examples/example.go:76 | The channel starts with an empty slot and no drops. |
| `ControlQueue.Channel.Send` | _examples/example.go:84-89 | A send never waits. It fills an empty slot. When the slot is occupied, it leaves the pending value in place, reports the drop and counts it. |
| `ControlQueue.Channel.TryReceive` | _examples/example.go:145-152 | A poll returns the pending value, or none, and always leaves the slot empty. |
| `ControlQueue.OccupiedSlotDropsAll` | _examples/example.go:85-89 | Any number of sends into an occupied slot leave its value unchanged, and every one of them is reported as dropped. |
| `ControlQueue.FirstSendWins` | _examples/example.go:85-89 | A burst of sends into an empty slot leaves exactly the first value pending. The other `n-1` sends are dropped. |
| `ControlQueue.PendingWasSent` | _examples/example.go:84-89 | After a burst, the slot holds either its old value or one of the values sent. |
| `Render.EdgeColor` | _examples/example.go:125-128 | `thiscolor` is blue exactly for a live cell and black exactly for a dead one. |
| `Render.BlockPixel` | _examples/example.go:129-137 | The nine colours of a block, in the order the source writes them. Each is black, the centre colour or the cell's colour. The centre colour appears exactly at offset (1,1). |
| `Render.FrameSide` | _examples/example.go:108-112 | A frame side is the largest multiple of 3 that does not exceed the requested size. |
| `Render.NewFrame` | _examples/example.go:112-117 | The new frame is `sizex*3` by `sizey*3` pixels, and every pixel is black. |
| `Render.DrawCell` | _examples/example.go:124-137 | Drawing cell (x, y) writes the 3x3 block pattern on `[3x,3x+2] x [3y,3y+2]` and leaves every other pixel unchanged. |
| `Render.DrawGrid` | _examples/example.go:122-139 | After the cell loops, every pixel of the frame is the block pixel of the cell it falls in. |
| `Render.BlockPattern` | _examples/example.go:125-137 | In a block, the corners are black and the centre is (64,0,0). The four edge midpoints are blue for a live cell and black for a dead one. |
| `Render.BlueMarksLiveEdge` | _examples/example.go:125-137 | A block pixel is blue exactly when it is an edge midpoint and the cell is alive. |
| `Render.ReadBack` | _examples/example.go:122-138 | In a rendered frame, the top midpoint of each block is blue exactly when its cell is alive. The centre is (64,0,0) and the corners are black, so the frame determines the cells. |
| `RunModel.Initial` | _examples/example.go:75-92 | The state when the main loop begins: idle, empty slot, no drops, flag clear, Start button enabled by line 92, Reset disabled. It satisfies the invariant. |
| `RunModel.Deliver` | _examples/example.go:84-91 | The callback changes only the slot and the drop count. It stores the value in an empty slot. When the slot is full, it keeps the pending value and counts a drop. |
| `RunModel.Advance` | _examples/example.go:94-157 | One worker step: an idle poll (no change, or a run start), one generation with its stop poll, or leaving the loop. It preserves the invariant, makes at most one `Step` and never drops a command. |
| `RunModel.GenerationsRun` | _examples/example.go:120-153 | A run lasts at least one generation and never more than its remaining budget. |
| `RunModel.PendingStopsFirstGeneration` | _examples/example.go:145-149 | A value already in the slot when the loop begins stops the run after its first generation. |
| `RunModel.QuietRunUsesBudget` | _examples/example.go:120-151 | With no command during the run, the run performs its whole budget of generations. |
| `RunModel.FirstCommandStops` | _examples/example.go:145-149 | When the first command arrives during generation `k`, the run ends after exactly `k+1` generations. |
| `RunModel.ExecKeepsInv` | _examples/example.go:94-159 | Every interleaving of callbacks and worker steps preserves the invariant. Each step is followed by one frame. While idle, `running` is false and the buttons read Start / Reset disabled. During a run they read Stop / Reset enabled. The `Step` count never exceeds 50. |
| `RunModel.Reachable` | _examples/example.go:75-159 | Every state reachable from mainproc's start has made at most 50 `Step` calls in its current or last run, with exactly one frame per `Step`. |
| `RunModel.EmptyPollsIdle` | _examples/example.go:95-101 | While idle, any number of polls of an empty slot change nothing. They start no run and make no `Step` call. |
| `RunModel.StartCommand` | _examples/example.go:84-107 | A command posted to an idle worker is consumed by the next poll. That poll sets `running`, makes the control button read "Stop" and enables the Reset button. |
| `RunModel.StopPoll` | _examples/example.go:145-152 | A generation makes one `Step` and empties the slot. The loop continues exactly when the slot was empty and budget remains. |
| `RunModel.CommandsOnlyFill` | _examples/example.go:84-91 | Callbacks change only the slot and the drop count, as `SendAll` describes. |
| `RunModel.StoppedRunEnds` | _examples/example.go:153-157 | Once `running` is cleared, the next worker step leaves the run without another `Step`, whatever commands arrive first. Afterwards the buttons read Start / Reset disabled. |
| `RunModel.NoStepsWhileStopped` | _examples/example.go:120-121 | While the loop condition `running && i < lifeMaxGens` is false, commands alone followed by one worker step cause no `Step`. This covers both a stopped run and a spent budget. |
| `RunModel.StopWithinOneGeneration` | _examples/example.go:120-157 | A command delivered during a run costs exactly one more `Step`. The worker is idle two steps later, with the buttons restored. |
| `RunModel.Uninterrupted` | _examples/example.go:120-152 | With an empty slot, each worker step performs one generation, one `Step` and one frame, until the budget is spent. |
| `RunModel.FullRun` | _examples/example.go:94-157 | One start command and no other: the run performs exactly 50 `Step` calls and 50 frames, then returns to idle with `running` false and the buttons restored. |
| `RunModel.StepBudget` | _examples/example.go:119-121 | Along any interleaving, the number of `Step` calls is at most 50 per run started, plus what remains of the current run. |
| `RunModel.LateSignalRestarts` | _examples/example.go:145-157 | A command that arrives after the last generation's poll is still pending when the run ends. The next idle poll starts a new run from it. |
| `Driver.Simulation.constructor` | _examples/example.go:75-92 | The worker starts idle with an empty channel and the flag clear. The Start button is enabled and the Reset button disabled. The frame is the `gridx` x `gridy` image it was given. |
| `Driver.Simulation.Post` | _examples/example.go:84-91 | The callback changes only the channel, exactly as `Deliver` does. It reports a drop exactly when the slot was full. |
| `Driver.Simulation.IdlePoll` | _examples/example.go:94-117 | An idle poll of an empty slot changes nothing. A value there is consumed and starts a run. A fresh, all-black frame of `FrameSide(gridx)` x `FrameSide(gridy)` pixels is made. |
| `Driver.Simulation.Generation` | _examples/example.go:120-152 | One iteration makes one `Step`, redraws the whole frame from the engine's cells, uploads one frame and polls for a stop, as `Advance` does. |
| `Driver.Simulation.FinishRun` | _examples/example.go:155-157 | Leaving the loop clears `running` and restores the buttons. The frame is not touched. |
| `Driver.Simulation.Run` | _examples/example.go:119-157 | The loop ends idle, with the buttons restored. The slot holds exactly the late command, if one landed after the last stop poll, and is empty otherwise. Its number of `Step` calls equals its number of frames and is `GenerationsRun` of the commands that arrived, which is between 1 and 50. The frame shows the cells after the last `Step`. |
| `Driver.Simulation.Cycle` | _examples/example.go:94-158 | One pass of the outer loop does nothing with an empty slot. With a command pending, it makes a frame of the rounded-down size and completes a run of `GenerationsRun` generations. Only a late command is left in the slot afterwards. |

## Left out

- The Life engine (`gothlife.NewLife`, `Step`, `CurAlive`). Its package is not part of this model. `Step` is counted, and its results are parameters. No neighbour rule or boundary policy is assumed.
- `loadPNG`, `savePNG` and `imageToRGBA` are file I/O and image-library wrappers.
- `main` creates the widgets and starts the goroutine through the Tk interpreter. Of its effects, only the button states are kept. `main` creates both buttons disabled, and `mainproc` enables the Start button at line 92 before its main loop. The model starts from that point: "Start" enabled, Reset disabled.
- `ir.Eval` and `ir.UploadImage` calls are kept only as their effect: the button fields and a count of uploaded frames.
- `time.Sleep` pacing and the step timing measurement are left out, because time is not modelled. Cancellation latency is therefore stated in worker steps, not in milliseconds.
- Goroutine and channel concurrency is reduced to a sequential interleaving of callback and worker steps. The callback's unsynchronised read of `running` for its log line is not modelled.
- The seeded random source is left out because it is never used.
- Log output (`println`, `fmt.Printf`) is not modelled. The "Blocked" report is kept as the `dropped` result and the drop count.
- Driver.Simulation.constructor: takes `gridx` and `gridy` as natural numbers. The program only ever passes 320 x 240, and negative sizes are not modelled.
- The outer `for {}` loop never terminates. It is modelled one pass at a time (`Cycle`), and in `RunModel` as arbitrary finite executions.
