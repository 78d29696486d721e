# Roadside-unit vehicle registry (traffic density estimation)

A Dafny model of the vehicle registry that the traffic-density-estimation (TDE) roadside unit of the Veins application `TraCITDERSU11p` keeps. The registry has these parts:

- **Slot table.** `listedVehicles` is a fixed-capacity array of slots `{id, lastSeenAt, vType}`.
- **Live count.** `currentNumberofTotalDetectedVehicles` (here `totalDetected`) says how many slots at the front of the array hold live entries.
- **Class counters.** There is one counter for each vehicle class: motorcycles (MC), light vehicles (LV) and heavy vehicles (HV).

Beacons from vehicles add entries or refresh them. A periodic timeout pass removes entries that have gone quiet and closes each gap by shifting the later slots down.

The model is in three modules:

- `VehicleRegistry` (`vehicle_registry.dfy`) defines the slot datatype and the specification functions on sequences of slots:
  - `FirstMatch` and `Indexed`, the first-match scan;
  - `Count`, the per-class count;
  - `Sweep`, the reference definition of what one timeout pass does to the live entries;
  - `AfterExpiry`, what the pass does to the whole array.

  It also holds the lemmas about these functions.
- `ExpiryPass` (`expiry_pass.dfy`) holds the loop invariant of the timeout pass and the lemmas that carry it from one slot to the next.
- `TdeRoadsideUnit` (`roadside_unit.dfy`) holds the class `RoadsideUnit`. Its fields are the array and the counters, and its methods update them in place. Each method is proved against the specification functions.

About the timeout pass, the model reproduces the code as written:

- When slot `i` is removed, the index still advances. The entry that moved into slot `i` is not examined in that pass. It is kept without being examined. So when the first two live entries have both timed out, the second survives the pass (`SweepKeepsSecondOfAdjacentExpiries`). Further along, which of two neighbouring timed-out entries survives depends on where the walk stands. For example, with three timed-out entries `[a, b, c]` the pass removes `a`, keeps `b` unexamined and then removes `c`.
- The shift copies slot `total` down without clearing it. Every slot from the new total up to the old one therefore ends up holding the old slot `total`.
- The pass reads slot `total` on each removal. That slot exists only when the table is not full. The precondition of `DeleteAndRestructureArray` states exactly this: there is a free slot, or no live entry has timed out.

Simulated time (`simtime_t`) is an integer tick count. The current time of the timeout pass is the parameter `now`.

## Model

| member | source | states |
|---|---|---|
| TdeRoadsideUnit.RoadsideUnit.constructor | src/veins/modules/application/traci/TraCITDERSU11p.cc:94-134 | All four counters start at 0, and every slot holds id -1 and class "undefined". So no id is listed, the live entries are empty and the counters agree with them. |
| TdeRoadsideUnit.RoadsideUnit.IndexedCar | src/veins/modules/application/traci/TraCITDERSU11p.cc:175-188 | Returns true if and only if some slot below `counter` holds `carId`. Slots at or beyond `counter` play no part. |
| TdeRoadsideUnit.RoadsideUnit.Append2List | src/veins/modules/application/traci/TraCITDERSU11p.cc:190-204 | Slot `firstEmptyArrayIndex` becomes exactly (carId, messageTime, vType) and every other slot is unchanged. The total grows by exactly 1. Only the counter of a known class grows, by 1. An unknown class grows no class counter. |
| TdeRoadsideUnit.RoadsideUnit.UpdateLastSeenTime | src/veins/modules/application/traci/TraCITDERSU11p.cc:217-226 | Only `lastSeenAt` of the first slot below `counter` holding `carId` changes, to `messageTime`. No counter changes. With no such slot, the array is unchanged. |
| TdeRoadsideUnit.RoadsideUnit.OnBeacon | src/veins/modules/application/traci/TraCITDERSU11p.cc:139-151 | With TDE on and class MC, LV or HV, the sender ends up listed with its last-seen time set to the arrival time. The total grows by 1 exactly when the sender was not listed before. An unlisted sender is written as (sender, arrival time, class) into slot `total`. Every other slot stays unchanged, and only the counter of its class grows by 1. For a listed sender, only `lastSeenAt` of its first slot changes and no counter moves. Distinct ids, known classes and counters that agree with the entries are all preserved. So if these held before, MC + LV + HV == total holds afterwards. Otherwise the registry is untouched. |
| TdeRoadsideUnit.RoadsideUnit.DeleteAndRestructureArray | src/veins/modules/application/traci/TraCITDERSU11p.cc:237-265 | The live entries become `Sweep` of the old live entries, and the whole array becomes `AfterExpiry` of the old array. Each class counter drops by the number of removed entries of that class, so counters that agreed with the entries still agree. Distinct ids and known classes among the live entries carry over. So if the counters agreed with entries of known classes before, MC + LV + HV == total holds afterwards. |
| TdeRoadsideUnit.RoadsideUnit.ExpireTimedOut | src/veins/modules/application/traci/TraCITDERSU11p.cc:240-262 | The removals and shifts of the pass: the whole array becomes `AfterExpiry` of the old one and the live entries become `Sweep` of the old ones. Each class counter drops by the number of removed entries of that class. |
| TdeRoadsideUnit.RoadsideUnit.ScanSlots | src/veins/modules/application/traci/TraCITDERSU11p.cc:240-262 | The walk over the live slots, whose bound shrinks as entries are removed, ends in a state where the pass invariant holds at an index at or past the live count. Each counter has dropped by the count of its class among the removed entries. |
| TdeRoadsideUnit.RoadsideUnit.ExpireSlot | src/veins/modules/application/traci/TraCITDERSU11p.cc:243-261 | Examining slot `i` (removing it when it was last seen strictly before `now - timeoutInterval`) carries the pass invariant and the counter bookkeeping from `i` to `i + 1`, and never raises the total. |
| TdeRoadsideUnit.RoadsideUnit.RemoveEntry | src/veins/modules/application/traci/TraCITDERSU11p.cc:249-260 | The counter of the removed entry's class drops by 1, the slots above `i` move down one place (slot `total` included) and the total drops by 1. |
| TdeRoadsideUnit.RoadsideUnit.ShiftDown | src/veins/modules/application/traci/TraCITDERSU11p.cc:257-259 | Afterwards the array is the old prefix before `i`, then old slots `i+1..total`, then old slots from `total` on. |
| VehicleRegistry.FirstMatch | src/veins/modules/application/traci/TraCITDERSU11p.cc:178-184 | The scan with `break` stops at the first slot below `n` holding `carId`, and returns `n` when there is none. It finds a slot if and only if the id is indexed. |
| VehicleRegistry.AppendEntry | src/veins/modules/application/traci/TraCITDERSU11p.cc:145-146 | Appending an unlisted sender adds it at the end of the live entries with `FirstMatch` at the old total. Distinct ids, known classes and counters that agree with the entries are all preserved. |
| VehicleRegistry.RefreshEntry | src/veins/modules/application/traci/TraCITDERSU11p.cc:147 | Refreshing a listed sender keeps it at the same first slot with the new time. Ids, classes and counts do not change. |
| VehicleRegistry.ClassCountsSumToTotal | src/veins/modules/application/traci/TraCITDERSU11p.cc:199-203 | When every live entry has a known class, MC + LV + HV equals the number of live entries. Together with the counter agreement kept by `OnBeacon` and `DeleteAndRestructureArray`, this gives MC + LV + HV == total. |
| VehicleRegistry.CountAppend | src/veins/modules/application/traci/TraCITDERSU11p.cc:199-203 | The per-class count of a concatenation is the sum of the counts of its parts. |
| VehicleRegistry.CountSameTypes | src/veins/modules/application/traci/TraCITDERSU11p.cc:221-222 | Changing a slot without changing its class (as a timestamp refresh does) changes no per-class count. |
| VehicleRegistry.FirstMatchSameIds | src/veins/modules/application/traci/TraCITDERSU11p.cc:221-222 | Changing a slot without changing its id (as a timestamp refresh does) moves no first match. |
| VehicleRegistry.SweepRemovesOnlyExpired | src/veins/modules/application/traci/TraCITDERSU11p.cc:243 | The pass only removes entries, and every removed entry was last seen strictly before the cutoff. Entries that have not timed out are all kept. |
| VehicleRegistry.SweepIsSubsequence | src/veins/modules/application/traci/TraCITDERSU11p.cc:257-259 | The surviving entries keep their original relative order. |
| VehicleRegistry.SweepKeepsDistinctIds | src/veins/modules/application/traci/TraCITDERSU11p.cc:240-262 | Live ids that were pairwise distinct stay pairwise distinct after the pass. |
| VehicleRegistry.SweptKeepsInvariants | src/veins/modules/application/traci/TraCITDERSU11p.cc:240-262 | Any sequence equal to the sweep of the old live entries keeps their distinct ids and known classes. |
| VehicleRegistry.SweepKeepsAllKnown | src/veins/modules/application/traci/TraCITDERSU11p.cc:240-262 | Live entries whose classes were all known stay so after the pass. |
| VehicleRegistry.SubsequencePositions | src/veins/modules/application/traci/TraCITDERSU11p.cc:257-259 | Two different positions of a subsequence come from two different positions of the original. |
| VehicleRegistry.SubsequenceMember | src/veins/modules/application/traci/TraCITDERSU11p.cc:257-259 | Every entry of a subsequence occurs in the original. |
| VehicleRegistry.SweepNoneExpired | src/veins/modules/application/traci/TraCITDERSU11p.cc:243 | When no live entry has timed out, the pass changes nothing. |
| VehicleRegistry.SweepClearsIsolatedExpiries | src/veins/modules/application/traci/TraCITDERSU11p.cc:240-262 | When no two neighbouring entries have both timed out, no timed-out entry survives the pass. |
| VehicleRegistry.SweepKeepsSecondOfAdjacentExpiries | src/veins/modules/application/traci/TraCITDERSU11p.cc:240-262 | When the first two entries have both timed out, the first is removed. The second moves into its slot, is kept without being examined, and survives although it has timed out. So the pass does not guarantee that no timed-out entry remains. |
| VehicleRegistry.SweepStep | src/veins/modules/application/traci/TraCITDERSU11p.cc:243-261 | One step of the pass splits the entries into three parts: at most one dropped entry, which has timed out; exactly one kept entry; and the rest still to walk. The sweep of the whole is the kept entry followed by the sweep of the rest. |
| VehicleRegistry.Sweep | src/veins/modules/application/traci/TraCITDERSU11p.cc:240-262 | The reference definition of the live entries after one pass, including the skip of the refilled slot. The pass never adds entries: the result is no longer than the input. |
| VehicleRegistry.AfterExpiry | src/veins/modules/application/traci/TraCITDERSU11p.cc:257-260 | The reference definition of the whole array after one pass, with the stale copies of old slot `total` left above the new total. The pass keeps the array's length. |
| VehicleRegistry.TalliedTotal | src/veins/modules/application/traci/TraCITDERSU11p.cc:199-203 | Counters that agree with entries of known classes add up to the number of entries. |
| VehicleRegistry.AfterExpiryShape | src/veins/modules/application/traci/TraCITDERSU11p.cc:257-260 | After the pass, the front of the array is the swept live entries. The slots up to the old total repeat the old slot `total`, and the later slots are unchanged. |
| ExpiryPass.PassStart | src/veins/modules/application/traci/TraCITDERSU11p.cc:240 | The pass invariant holds before the first slot. |
| ExpiryPass.PassKeepStep | src/veins/modules/application/traci/TraCITDERSU11p.cc:243 | Keeping a slot that has not timed out carries the pass invariant to the next slot. |
| ExpiryPass.PassHasRoom | src/veins/modules/application/traci/TraCITDERSU11p.cc:257-258 | When a removal happens, the slot `total` that the shift reads lies inside the array. |
| ExpiryPass.PassRemoveStep | src/veins/modules/application/traci/TraCITDERSU11p.cc:249-260 | Removing a timed-out slot and shifting carries the pass invariant to the next index and the counter bookkeeping to the smaller total. The next index skips the entry that was just moved in. |
| ExpiryPass.RemovalKeepsSweep | src/veins/modules/application/traci/TraCITDERSU11p.cc:257-260 | After a removal and shift, the slots before the next index together with the sweep of the rest still give the sweep of the original entries. |
| ExpiryPass.PassDone | src/veins/modules/application/traci/TraCITDERSU11p.cc:240-262 | When the walk stops, the array is `AfterExpiry` of the original and the live entries are `Sweep` of the original ones. Each counter has dropped by its class's removed entries. |
| ExpiryPass.PassEnd | src/veins/modules/application/traci/TraCITDERSU11p.cc:240 | Once the index reaches the live count, the live entries are the sweep of the original ones. |
| ExpiryPass.RemovalCounts | src/veins/modules/application/traci/TraCITDERSU11p.cc:249-255 | Decrementing the removed entry's class counter keeps each counter equal to its start value minus the removed entries of its class. |
| ExpiryPass.RemovalCount | src/veins/modules/application/traci/TraCITDERSU11p.cc:249-255 | Removing slot `i` from the live entries lowers the count of its class by 1 and no other count. |
| ExpiryPass.ShiftStep | src/veins/modules/application/traci/TraCITDERSU11p.cc:258 | One copy of slot `j+1` into slot `j` carries the shift loop's invariant from `j` to `j+1`. |

## Left out

- Parameter reading (`par(...)`) is not modelled. `enableTDE` and `timeoutInterval` are constructor arguments, and `maxVehicles` (declared in the class header, which is not part of this model) is the array length.
- The `short` width of `carId`, `counter` and `firstEmptyArrayIndex` is not modelled. Ids and counters are unbounded integers. A sender address outside the 16-bit range would be truncated by the source, and the model does not capture that truncation.
- Counter overflow is not modelled: counters are unbounded integers.
- `simtime_t` is an integer tick count, not the simulator's fixed-point time.
- TdeRoadsideUnit.RoadsideUnit.constructor: the initialisation loop sets only `id` and `vType`. `lastSeenAt` keeps whatever the allocation gave, so the model promises nothing about it.
- TdeRoadsideUnit.RoadsideUnit.Append2List: the model requires the target slot to lie inside the array. The source writes there without a bounds check.
- TdeRoadsideUnit.RoadsideUnit.DeleteAndRestructureArray: when the table is full and an entry has timed out, the source reads one slot past the array. The precondition excludes that case instead of modelling the out-of-bounds read.
- The timeout pass is split into the methods `ExpireTimedOut`, `ScanSlots`, `ExpireSlot`, `RemoveEntry` and `ShiftDown`. Together they perform the same reads and writes in the same order as the single nested loop of the source.
- TdeRoadsideUnit.RoadsideUnit.OnBeacon: the model requires a free slot when a new sender arrives with a known class. In the source, a new sender arriving when the table is full makes `append2List` write slot `maxVehicles`, one past the end of the array. The model does not cover that case.
- Road-capacity arithmetic is left out because it is floating point: `calculateCapacity`, `trafficVolume` with its passenger-car equivalents, `VCRatio`, and the 0.84 alert threshold.
- Simulation-kernel scheduling is left out: the `scheduleAt` calls in `initialize`, the self-message dispatch in `handleSelfMsg`, and the teardown in `finish`. These are calls into the simulator.
- Radio, user interface, logging and statistics are left out: `onData`, `sendMessage`, `sendWSM`, annotations and display strings, `EV`/`DBG` output, `showInfo`, and the `emit`-based `updateStats`. They have no effect on the registry.
- `Tests/NewTCP/TCPTester.h` is not part of this model. Only its declarations exist, with no behaviour to state.
