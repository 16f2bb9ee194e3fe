# Parking lot with a single-lane entrance, in Dafny

This project models the coordination core of a parking lot simulator. The lot has 20
spaces. Each space is a boolean flag, `true` when occupied. One lane serves both entering
and exiting traffic. The lane is guarded by a one-slot buffered channel (the *gate*) and a
shared *direction*: 0 idle, 1 entering, -1 exiting. Vehicles make one non-blocking attempt
per call:

- `Enter` checks for a free space. It then tries the gate, takes the lowest free space,
  and resets the lane.
- `Exit` tries the gate, frees the vehicle's space, counts the departure and resets the
  lane.

Every attempt may also send a status message to the display.

Layout:

- `space_pool.dfy`, module `SpacePool`: the capacity and pure specification functions
  over a sequence of occupancy flags. `FirstFree` gives the lowest free index or -1.
  `AnyFree` says some space is free. `OccupiedCount` counts the occupied spaces. The
  module also holds the lemmas about occupying and releasing a space.
- `parking_lot.dfy`, module `Parking`: the class `ParkingLot`. Its fields are the array
  `spaces`, the flag `gateHeld` (the channel buffer is full), `direction`,
  `vehiclesExited`, and `log`, the messages sent so far as `Event` values. The scans,
  the point writes, the gate operations, `Enter` and `Exit` are methods that change
  these fields in place. A `Vehicle` is a value holding only its id.

Each method call is one atomic step. A caller models "another vehicle is in the lane" by
setting `gateHeld` (and `direction`) before the call. Every operation ends with `gateHeld`
as it found it. So a successful attempt always releases the gate it took, and a failed
attempt never takes the gate away from its holder.

## Model

| member | source | states |
|---|---|---|
| `SpacePool.FirstFree` | main.go:129-139 | Result is -1 exactly when every space is occupied. Otherwise it is a free index and every lower index is occupied. It is not -1 exactly when some space is free. |
| `SpacePool.OccupiedCount` | main.go:19-20 | The number of occupied spaces never exceeds the capacity. It equals the capacity exactly when no space is free. It is 0 exactly when every space is free. |
| `SpacePool.AllFree` | main.go:41-48 | A new lot has the full length, with every space free (the zero value of the Go array). |
| `SpacePool.OccupiedCountUpdate` | main.go:141-153 | Writing one flag changes the occupied count by the new flag minus the old flag, and by nothing else. |
| `SpacePool.OccupyAddsOne` | main.go:141-146 | Occupying a free space raises the occupied count by exactly one. |
| `SpacePool.ReleaseTakesOne` | main.go:148-153 | Releasing an occupied space lowers the occupied count by exactly one. |
| `SpacePool.OccupyReleaseRoundTrip` | main.go:141-153 | Occupying a free space and then releasing it restores the pool exactly. |
| `SpacePool.FirstFreeAdvances` | main.go:133-138 | Because the lowest index wins, the lot fills from the left: after the first free space is taken, the next free space (if any) lies strictly to its right. |
| `Parking.ParkingLot.constructor` | main.go:41-48 | A new lot has 20 free spaces, a free gate, an idle lane, no exits and no messages. |
| `Parking.ParkingLot.FindAvailableSpace` | main.go:129-139 | The scan returns -1 exactly when all 20 spaces are occupied. Otherwise it returns the lowest free index, with every lower index occupied. This equals `FirstFree` of the flags. Nothing changes. |
| `Parking.ParkingLot.HasAvailableSpaces` | main.go:155-165 | The scan is true exactly when some space is free. This agrees with `FindAvailableSpace() != -1` and with "fewer than 20 occupied". Nothing changes. |
| `Parking.ParkingLot.OccupySpace` | main.go:141-146 | Sets the given flag to true, with no check on its old value. No other flag changes. Gate, direction, counter and log are outside its frame. |
| `Parking.ParkingLot.ReleaseSpace` | main.go:148-153 | Sets the given flag to false. No other flag changes. Gate, direction, counter and log are outside its frame. |
| `Parking.ParkingLot.TryAcquireGate` | main.go:177-178 | The non-blocking send succeeds exactly when the buffer was empty. Afterwards the buffer is full either way. |
| `Parking.ParkingLot.ReleaseGate` | main.go:187 | The holder's receive empties the buffer. |
| `Parking.ParkingLot.Enter` | main.go:171-201 | Succeeds exactly when a space is free, the gate is free and the lane is idle or entering. On success: returns the lowest free index, occupies only it, raises the count by one, ends idle. On failure: (-1, false), slots and direction unchanged. Gate and counter always unchanged. Logs by case (listed after this table). |
| `Parking.ParkingLot.EnterThroughGate` | main.go:177-200 | The gate part of `Enter`, applicable whether or not a space is free. It is the corrected version: when no space is left once the gate is held, it returns (-1, false) with the lane idle. Like `Enter`, it keeps a free gate paired with an idle lane. |
| `Parking.ParkingLot.EnterThroughGateAsWritten` | main.go:177-200 | The same step as the code has it. When no space is left once the gate is held (gate was free, lane idle or entering), it returns (-1, false), releases the gate and leaves the lane marked entering. All other cases match `EnterThroughGate`. |
| `Parking.ParkingLot.Exit` | main.go:203-235 | Succeeds exactly when the gate is free and the lane is idle or exiting. On success: frees the given space, adds exactly one to the counter, ends idle, logs the new total. On failure: spaces, counter and direction unchanged. The gate always ends as it started. |
| `Parking.LateEntrantLocksLaneAsWritten` | main.go:171-235 | As written: a full lot, after a late entrant, admits no `Exit` of any parked vehicle and no `Enter`, and the next `Exit` fails again. |
| `Parking.LateEntrantThenExit` | main.go:171-235 | Corrected: in the same situation, a parked vehicle's `Exit` succeeds at once. |

`Enter` has four cases. In every case the gate and the exit counter end as they started.

- No space is free: it returns (-1, false). It leaves spaces, gate and direction alone
  and logs "waiting for space".
- The gate is held by another vehicle: it returns (-1, false) and changes nothing. It
  logs "waiting for entrance" only when the lane is exiting.
- The gate is free and the lane is exiting: it returns (-1, false), with the slots and
  the direction unchanged.
- Otherwise (a space is free, the gate is free, the lane is idle or entering): it returns
  (i, true). Here i is the lowest free index, and only that index becomes occupied. The
  occupied count rises by one, the lane ends idle, and it logs the entry.

`Exit` succeeds exactly when the gate is free and the lane is idle or exiting. Then it
frees the given space and adds exactly one to `vehiclesExited`. The lane ends idle, and it
logs the departure with the new total. When the space was occupied, the occupied count
drops by one. Otherwise `Exit` returns false, and spaces, counter and direction are
unchanged. It logs "waiting to exit" only when the gate is busy and the lane is entering.
In no case does the counter decrease.

## Findings

| source | as written | input that shows it | evidently intended | confidence | as-written member | corrected member |
|---|---|---|---|---|---|---|
| main.go:179-193 | After `Enter` takes the gate and sets the direction to 1, a failed space lookup falls through to release the gate at line 193. The direction stays 1 while the gate is free. | Vehicle A passes `hasAvailableSpaces` while one space is free. Vehicle B takes that space and resets the lane. A then takes the gate, sets direction 1, finds no space and releases the gate. Now the lot is full, the gate is free and the direction is 1. Every `Exit` takes the gate, sees 1 and fails. Every `Enter` fails on "no space". The lot never empties. | The lane is idle whenever the gate is free, so the failed lookup resets the direction to 0. | not executed; high for the stuck state once it is reached. Reaching it needs the interleaving described. | `Parking.ParkingLot.EnterThroughGateAsWritten`, `Parking.LateEntrantLocksLaneAsWritten` | `Parking.ParkingLot.EnterThroughGate`, `Parking.LateEntrantThenExit` |

`Enter` uses the corrected step. Within one atomic `Enter` the failed-lookup branch can
never run, because the free-space check just passed. So `Enter`'s contract is the same
under either version.

## Left out

- The mutex `mu` and all interleaving inside an operation: each call is one atomic step.
  The lookup race in the finding is modelled only by calling the gate step on its own.
- Direction read without the gate: the code reads `direction` in the gate-busy branches
  without holding anything. The model reads it atomically.
- `time.Sleep` crossing delays and backoffs, `rand` and `rand.ExpFloat64`: timing,
  randomness and floating point.
- `simulateVehicle`, `main` and their retry loops and `sync.WaitGroup`: these are the
  concurrent driver, not single operations.
- `createGUI` and `updateGUI` (main.go:50-127): the Fyne display layer.
- `updateStats`: modelled as appending an `Event` to `log`. The wording of the messages,
  `fmt.Println`, and the 100-message channel capacity (a send can block when it is full)
  are not modelled.
- The `spacesAvailable` channel: it is created but never used.
- Parking.ParkingLot.Exit: `vehiclesExited` is a Go `int`. The model uses an unbounded
  natural number, so 64-bit overflow is not modelled.
- Occupying an already-occupied space, or releasing a free one, is not treated as a
  failure. The code simply assigns the flag, and the model does the same.
