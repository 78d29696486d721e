/**
 * The traffic-density-estimation state of a roadside unit: a fixed-capacity
 * array of vehicle slots whose first `totalDetected` entries are the vehicles
 * currently heard, with one counter per vehicle class beside it. Beacons add
 * or refresh entries; a periodic timeout pass removes entries that have gone
 * quiet and closes the gaps by shifting the later entries down.
 */
module TdeRoadsideUnit {
  import opened VehicleRegistry
  import opened ExpiryPass

  class RoadsideUnit {
    /** Whether traffic density estimation is switched on. */
    const enableTDE: bool
    /** How long (in ticks) an entry may go without a beacon before it times out. */
    const timeoutInterval: int

    /** The slot table; its length is the unit's `maxVehicles`. */
    const listedVehicles: array<Vehicle>
    var detectedMC: int
    var detectedLV: int
    var detectedHV: int
    var totalDetected: int

    ghost predicate Valid()
      reads this
    {
      0 <= totalDetected <= listedVehicles.Length
    }

    /** The live entries. */
    ghost function Live(): seq<Vehicle>
      reads this, listedVehicles
      requires Valid()
    {
      listedVehicles[..totalDetected]
    }

    /** The vehicle `carId` has a live entry. */
    ghost predicate Listed(carId: int)
      reads this, listedVehicles
      requires Valid()
    {
      Indexed(listedVehicles[..], carId, totalDetected)
    }

    /** The three class counters. */
    ghost function Counters(): Tally
      reads this
    {
      Tally(detectedMC, detectedLV, detectedHV)
    }

    /** Each class counter equals the number of live entries of that class. */
    ghost predicate CountersMatch()
      reads this, listedVehicles
      requires Valid()
    {
      Tallied(Counters(), Live())
    }

    /** Start-up: all counters are zero and every slot is marked unused. */
    constructor (maxVehicles: nat, enableTDE: bool, timeoutInterval: int)
      ensures Valid() && fresh(listedVehicles)
      ensures this.enableTDE == enableTDE && this.timeoutInterval == timeoutInterval
      ensures listedVehicles.Length == maxVehicles
      ensures detectedMC == 0 && detectedLV == 0 && detectedHV == 0 && totalDetected == 0
      ensures forall k :: 0 <= k < maxVehicles ==> listedVehicles[k].id == NoVehicle && listedVehicles[k].vType == Undefined
      ensures Live() == [] && CountersMatch()
      ensures forall carId :: !Listed(carId)
    {
      this.enableTDE := enableTDE;
      this.timeoutInterval := timeoutInterval;
      listedVehicles := new Vehicle[maxVehicles];
      detectedMC, detectedLV, detectedHV, totalDetected := 0, 0, 0, 0;
      new;
      for i := 0 to maxVehicles
        modifies listedVehicles
        invariant forall k :: 0 <= k < i ==> listedVehicles[k].id == NoVehicle && listedVehicles[k].vType == Undefined
      {
        listedVehicles[i] := listedVehicles[i].(id := NoVehicle);
        listedVehicles[i] := listedVehicles[i].(vType := Undefined);
      }
    }

    /** Whether `carId` occupies one of the first `counter` slots. */
    method IndexedCar(carId: int, counter: int) returns (indexedStatus: bool)
      requires counter <= listedVehicles.Length
      ensures indexedStatus <==> Indexed(listedVehicles[..], carId, counter)
    {
      indexedStatus := false;
      var i := 0;
      while i < counter
        invariant 0 <= i && (i <= counter || i == 0)
        invariant forall k :: 0 <= k < i ==> listedVehicles[k].id != carId
      {
        if listedVehicles[i].id == carId {
          indexedStatus := true;
          break;
        }
        i := i + 1;
      }
    }

    /** Writes a new entry into slot `firstEmptyArrayIndex` and counts it: the
        total always, and the counter of its class when the class is known. */
    method Append2List(carId: int, firstEmptyArrayIndex: int, messageTime: int, vType: string)
      requires 0 <= firstEmptyArrayIndex < listedVehicles.Length
      modifies this, listedVehicles
      ensures listedVehicles[..] == old(listedVehicles[..])[firstEmptyArrayIndex := Vehicle(carId, messageTime, vType)]
      ensures totalDetected == old(totalDetected) + 1
      ensures detectedMC == old(detectedMC) + (if vType == MC then 1 else 0)
      ensures detectedLV == old(detectedLV) + (if vType == LV then 1 else 0)
      ensures detectedHV == old(detectedHV) + (if vType == HV then 1 else 0)
      ensures detectedMC + detectedLV + detectedHV
              == old(detectedMC + detectedLV + detectedHV) + (if IsKnownType(vType) then 1 else 0)
    {
      listedVehicles[firstEmptyArrayIndex] := listedVehicles[firstEmptyArrayIndex].(id := carId);
      listedVehicles[firstEmptyArrayIndex] := listedVehicles[firstEmptyArrayIndex].(lastSeenAt := messageTime);
      listedVehicles[firstEmptyArrayIndex] := listedVehicles[firstEmptyArrayIndex].(vType := vType);
      if vType == MC {
        detectedMC := detectedMC + 1;
      } else if vType == LV {
        detectedLV := detectedLV + 1;
      } else if vType == HV {
        detectedHV := detectedHV + 1;
      }
      totalDetected := totalDetected + 1;
    }

    /** Records `messageTime` as the last-seen time of the first of the first
        `counter` slots holding `carId`; nothing else changes. */
    method UpdateLastSeenTime(carId: int, counter: int, messageTime: int)
      requires counter <= listedVehicles.Length
      modifies listedVehicles
      ensures var before, k := old(listedVehicles[..]), FirstMatch(old(listedVehicles[..]), carId, counter);
              k < counter ==> listedVehicles[..] == before[k := before[k].(lastSeenAt := messageTime)]
      ensures !Indexed(old(listedVehicles[..]), carId, counter) ==> listedVehicles[..] == old(listedVehicles[..])
    {
      var i := 0;
      while i < counter
        invariant 0 <= i && (i <= counter || i == 0)
        invariant forall k :: 0 <= k < i ==> listedVehicles[k].id != carId
        invariant listedVehicles[..] == old(listedVehicles[..])
      {
        if listedVehicles[i].id == carId {
          listedVehicles[i] := listedVehicles[i].(lastSeenAt := messageTime);
          break;
        }
        i := i + 1;
      }
    }

    /**
     * A beacon from `senderAddress`, received at `arrivalTime`, whose text
     * `wsmData` names the sender's vehicle class. With estimation on and a
     * known class, an unlisted sender is appended at the end of the live
     * entries and a listed one has its last-seen time refreshed; otherwise the
     * registry is left alone.
     */
    method OnBeacon(senderAddress: int, arrivalTime: int, wsmData: string)
      requires Valid()
      requires enableTDE && IsKnownType(wsmData) && !Listed(senderAddress) ==> totalDetected < listedVehicles.Length
      modifies this, listedVehicles
      ensures Valid()
      ensures enableTDE && IsKnownType(wsmData) ==>
                && Listed(senderAddress)
                && listedVehicles[FirstMatch(listedVehicles[..], senderAddress, totalDetected)].lastSeenAt == arrivalTime
                && totalDetected == old(totalDetected) + (if old(Listed(senderAddress)) then 0 else 1)
      ensures enableTDE && IsKnownType(wsmData) && !old(Listed(senderAddress)) ==>
                && listedVehicles[..] == old(listedVehicles[..])[old(totalDetected) := Vehicle(senderAddress, arrivalTime, wsmData)]
                && detectedMC == old(detectedMC) + (if wsmData == MC then 1 else 0)
                && detectedLV == old(detectedLV) + (if wsmData == LV then 1 else 0)
                && detectedHV == old(detectedHV) + (if wsmData == HV then 1 else 0)
      ensures enableTDE && IsKnownType(wsmData) && old(Listed(senderAddress)) ==>
                && (var before, k := old(listedVehicles[..]), FirstMatch(old(listedVehicles[..]), senderAddress, old(totalDetected));
                    listedVehicles[..] == before[k := before[k].(lastSeenAt := arrivalTime)])
                && detectedMC == old(detectedMC) && detectedLV == old(detectedLV) && detectedHV == old(detectedHV)
      ensures !(enableTDE && IsKnownType(wsmData)) ==> unchanged(this, listedVehicles)
      ensures old(DistinctIds(Live())) ==> DistinctIds(Live())
      ensures old(AllKnown(Live())) ==> AllKnown(Live())
      ensures old(CountersMatch()) ==> CountersMatch()
      ensures old(CountersMatch() && AllKnown(Live())) ==> detectedMC + detectedLV + detectedHV == totalDetected
    {
      if enableTDE && (wsmData == MC || wsmData == LV || wsmData == HV) {
        var indexed := IndexedCar(senderAddress, totalDetected);
        if !indexed {
          ghost var before, t := listedVehicles[..], totalDetected;
          ghost var c := Counters();
          Append2List(senderAddress, totalDetected, arrivalTime, wsmData);
          AppendEntry(before, listedVehicles[..], t, totalDetected, Vehicle(senderAddress, arrivalTime, wsmData),
                      c, Counters());
        } else {
          ghost var before := listedVehicles[..];
          UpdateLastSeenTime(senderAddress, totalDetected, arrivalTime);
          RefreshEntry(before, listedVehicles[..], totalDetected, senderAddress, arrivalTime, Counters());
        }
      }
      TalliedTotal(Counters(), Live());
    }

    /**
     * The periodic timeout pass at simulated time `now`. Walks the live
     * entries; each entry last seen before `now - timeoutInterval` is
     * uncounted and removed by shifting every later slot (up to and including
     * slot `totalDetected`) down one place. The walk advances past the slot it
     * just refilled, so the live entries become `Sweep` of the old ones.
     * Distinct ids and known classes among the live entries carry over.
     */
    method DeleteAndRestructureArray(now: int)
      requires Valid()
      requires totalDetected < listedVehicles.Length ||
               forall k :: 0 <= k < totalDetected ==> !Expired(listedVehicles[k], now - timeoutInterval)
      modifies this, listedVehicles
      ensures Valid()
      ensures listedVehicles[..] == AfterExpiry(old(listedVehicles[..]), old(totalDetected), now - timeoutInterval)
      ensures Live() == Sweep(old(Live()), now - timeoutInterval)
      ensures detectedMC == old(detectedMC) - (Count(old(Live()), MC) - Count(Live(), MC))
      ensures detectedLV == old(detectedLV) - (Count(old(Live()), LV) - Count(Live(), LV))
      ensures detectedHV == old(detectedHV) - (Count(old(Live()), HV) - Count(Live(), HV))
      ensures old(CountersMatch()) ==> CountersMatch()
      ensures old(DistinctIds(Live())) ==> DistinctIds(Live())
      ensures old(AllKnown(Live())) ==> AllKnown(Live())
      ensures old(CountersMatch() && AllKnown(Live())) ==> detectedMC + detectedLV + detectedHV == totalDetected
    {
      ghost var live0 := Live();
      ExpireTimedOut(now);
      SweptKeepsInvariants(live0, Live(), now - timeoutInterval);
      TalliedTotal(Counters(), Live());
    }

    /** The removals and shifts of the timeout pass, with what they do to the
        array and to the counters. */
    method ExpireTimedOut(now: int)
      requires Valid()
      requires totalDetected < listedVehicles.Length ||
               forall k :: 0 <= k < totalDetected ==> !Expired(listedVehicles[k], now - timeoutInterval)
      modifies this, listedVehicles
      ensures Valid()
      ensures listedVehicles[..] == AfterExpiry(old(listedVehicles[..]), old(totalDetected), now - timeoutInterval)
      ensures Live() == Sweep(old(Live()), now - timeoutInterval)
      ensures detectedMC == old(detectedMC) - (Count(old(Live()), MC) - Count(Live(), MC))
      ensures detectedLV == old(detectedLV) - (Count(old(Live()), LV) - Count(Live(), LV))
      ensures detectedHV == old(detectedHV) - (Count(old(Live()), HV) - Count(Live(), HV))
      ensures old(CountersMatch()) ==> CountersMatch()
    {
      ghost var cutoff := now - timeoutInterval;
      ghost var original := listedVehicles[..];
      ghost var total0 := totalDetected;
      PassStart(original, total0, cutoff);
      ghost var stop := ScanSlots(now, original, total0);
      PassDone(listedVehicles[..], stop, totalDetected, original, total0, cutoff, Counters(), old(Counters()));
    }

    /** The walk of the timeout pass: slot by slot from the front while the
        index is below the live count, which shrinks as entries are removed.
        `stop` is where the walk ended. */
    method ScanSlots(now: int, ghost original: seq<Vehicle>, ghost total0: int) returns (ghost stop: int)
      requires PassInvariant(listedVehicles[..], 0, totalDetected, original, total0, now - timeoutInterval)
      requires totalDetected == total0
      requires total0 == listedVehicles.Length ==> forall k :: 0 <= k < total0 ==> !Expired(original[k], now - timeoutInterval)
      modifies this, listedVehicles
      ensures PassInvariant(listedVehicles[..], stop, totalDetected, original, total0, now - timeoutInterval)
      ensures CountersTrack(Counters(), old(Counters()), original[..total0], listedVehicles[..totalDetected])
      ensures stop >= totalDetected
    {
      var i := 0;
      while i < totalDetected
        invariant PassInvariant(listedVehicles[..], i, totalDetected, original, total0, now - timeoutInterval)
        invariant total0 == listedVehicles.Length ==> forall k :: 0 <= k < total0 ==> !Expired(original[k], now - timeoutInterval)
        invariant CountersTrack(Counters(), old(Counters()), original[..total0], listedVehicles[..totalDetected])
        decreases totalDetected - i
      {
        ExpireSlot(i, now, original, total0, old(Counters()));
        i := i + 1;
      }
      stop := i;
    }

    /** One step of the timeout pass: the entry in slot `i` is dropped when it
        was last heard before `now - timeoutInterval`, and kept otherwise. */
    method ExpireSlot(i: int, now: int, ghost original: seq<Vehicle>, ghost total0: int, ghost c0: Tally)
      requires PassInvariant(listedVehicles[..], i, totalDetected, original, total0, now - timeoutInterval)
      requires i < totalDetected
      requires total0 == listedVehicles.Length ==> forall k :: 0 <= k < total0 ==> !Expired(original[k], now - timeoutInterval)
      requires CountersTrack(Counters(), c0, original[..total0], listedVehicles[..totalDetected])
      modifies this, listedVehicles
      ensures PassInvariant(listedVehicles[..], i + 1, totalDetected, original, total0, now - timeoutInterval)
      ensures CountersTrack(Counters(), c0, original[..total0], listedVehicles[..totalDetected])
      ensures totalDetected <= old(totalDetected)
    {
      if listedVehicles[i].lastSeenAt < now - timeoutInterval {
        ghost var before, t := listedVehicles[..], totalDetected;
        ghost var c := Counters();
        PassHasRoom(before, i, t, original, total0, now - timeoutInterval);
        RemoveEntry(i);
        PassRemoveStep(before, listedVehicles[..], i, t, totalDetected, original, total0, now - timeoutInterval,
                       c, Counters(), c0);
      } else {
        PassKeepStep(listedVehicles[..], i, totalDetected, original, total0, now - timeoutInterval);
      }
    }

    /** Drops the timed-out entry in slot `i`: its class counter goes down by
        one, the entries above it move down a slot and the live count shrinks. */
    method RemoveEntry(i: int)
      requires 0 <= i < totalDetected < listedVehicles.Length
      modifies this, listedVehicles
      ensures totalDetected == old(totalDetected) - 1
      ensures listedVehicles[..] == old(listedVehicles[..i] + listedVehicles[i + 1..totalDetected + 1] + listedVehicles[totalDetected..])
      ensures detectedMC == old(detectedMC) - (if old(listedVehicles[i].vType) == MC then 1 else 0)
      ensures detectedLV == old(detectedLV) - (if old(listedVehicles[i].vType) == LV then 1 else 0)
      ensures detectedHV == old(detectedHV) - (if old(listedVehicles[i].vType) == HV then 1 else 0)
    {
      if listedVehicles[i].vType == MC {
        detectedMC := detectedMC - 1;
      } else if listedVehicles[i].vType == LV {
        detectedLV := detectedLV - 1;
      } else if listedVehicles[i].vType == HV {
        detectedHV := detectedHV - 1;
      }
      ShiftDown(i);
      totalDetected := totalDetected - 1;
    }

    /** Closes the gap at slot `i` of the expiry pass: each slot from `i` up to
        `totalDetected - 1` takes the entry of the slot above it. */
    method ShiftDown(i: int)
      requires 0 <= i < totalDetected < listedVehicles.Length
      modifies listedVehicles
      ensures listedVehicles[..] == old(listedVehicles[..i] + listedVehicles[i + 1..totalDetected + 1] + listedVehicles[totalDetected..])
    {
      ghost var before := listedVehicles[..];
      var j := i;
      while j < totalDetected
        invariant i <= j <= totalDetected
        invariant listedVehicles[..] == before[..i] + before[i + 1..j + 1] + before[j..]
      {
        ghost var current := listedVehicles[..];
        listedVehicles[j] := listedVehicles[j + 1];
        assert listedVehicles[..] == current[j := current[j + 1]];
        ShiftStep(before, current, listedVehicles[..], i, j);
        j := j + 1;
      }
    }
  }
}
