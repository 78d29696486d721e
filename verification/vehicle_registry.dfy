/**
 * The roadside unit's table of detected vehicles, seen as values.
 *
 * The unit keeps a fixed-size array of slots; the first `total` slots are
 * the live entries. This module holds the slot type and the functions that
 * specify the registry's operations on sequences of slots: the first-match
 * scan behind the membership test and the timestamp refresh, the per-class
 * counts the counters must agree with, and `Sweep`, the reference definition
 * of what one timeout-expiry pass does to the live entries.
 */
module VehicleRegistry {

  /** One slot: the sender's id, the simulated time (in ticks) of its last
      beacon, and its vehicle class as the beacon text names it. */
  datatype Vehicle = Vehicle(id: int, lastSeenAt: int, vType: string)

  /** The three vehicle classes the unit counts: motorcycles, light and heavy vehicles. */
  const MC: string := "MC"
  const LV: string := "LV"
  const HV: string := "HV"

  /** What initialisation writes into every slot, so that no node id matches an unused slot. */
  const NoVehicle: int := -1
  const Undefined: string := "undefined"

  predicate IsKnownType(vType: string) {
    vType == MC || vType == LV || vType == HV
  }

  /** An entry has timed out when it was last seen strictly before `cutoff`
      (the current time minus the timeout interval). */
  predicate Expired(v: Vehicle, cutoff: int) {
    v.lastSeenAt < cutoff
  }

  /** Some slot below `counter` holds `carId`; slots at or beyond `counter` do not matter. */
  predicate Indexed(s: seq<Vehicle>, carId: int, counter: int)
    requires counter <= |s|
  {
    exists i :: 0 <= i < counter && s[i].id == carId
  }

  /** Index of the first slot below `n` holding `carId`, or `n` itself when there is none. */
  function FirstMatch(s: seq<Vehicle>, carId: int, n: int): (k: int)
    requires n <= |s|
    ensures k == n || (0 <= k < n && s[k].id == carId)
    ensures forall i :: 0 <= i < k && i < n ==> s[i].id != carId
    ensures k < n <==> Indexed(s, carId, n)
    decreases n
  {
    if n <= 0 then n
    else
      var k := FirstMatch(s, carId, n - 1);
      if k < n - 1 then k
      else if s[n - 1].id == carId then n - 1
      else n
  }

  /** Number of entries of class `vType`. */
  function Count(s: seq<Vehicle>, vType: string): (n: nat)
    ensures n <= |s|
  {
    if s == [] then 0
    else Count(s[..|s| - 1], vType) + (if s[|s| - 1].vType == vType then 1 else 0)
  }

  /** The three class counters side by side. */
  datatype Tally = Tally(mc: int, lv: int, hv: int)

  /** The three class counters agree with the entries of `s`. */
  ghost predicate Tallied(c: Tally, s: seq<Vehicle>) {
    c.mc == Count(s, MC) && c.lv == Count(s, LV) && c.hv == Count(s, HV)
  }

  ghost predicate DistinctIds(s: seq<Vehicle>) {
    forall i, j :: 0 <= i < j < |s| ==> s[i].id != s[j].id
  }

  ghost predicate AllKnown(s: seq<Vehicle>) {
    forall i :: 0 <= i < |s| ==> IsKnownType(s[i].vType)
  }

  /** `t` is `s` with some entries left out and the others in their original order. */
  ghost predicate IsSubsequence(t: seq<Vehicle>, s: seq<Vehicle>)
    decreases |s|
  {
    if t == [] then true
    else if s == [] then false
    else (t[0] == s[0] && IsSubsequence(t[1..], s[1..])) || IsSubsequence(t, s[1..])
  }

  /**
   * The live entries after one expiry pass over `s`. The pass walks the
   * entries front to back; an expired entry is removed and the entries after
   * it move up one slot, but the index still advances, so the entry that moved
   * into the freed slot is kept without being examined.
   */
  function Sweep(s: seq<Vehicle>, cutoff: int): (r: seq<Vehicle>)
    ensures |r| <= |s|
    decreases |s|
  {
    if s == [] then []
    else if Expired(s[0], cutoff) then
      if |s| == 1 then [] else [s[1]] + Sweep(s[2..], cutoff)
    else [s[0]] + Sweep(s[1..], cutoff)
  }

  /**
   * The whole slot array after the expiry pass over its first `total`
   * entries. The live part is the sweep of the old live part. Each removal
   * copies slot `total` of the moment one slot down without clearing it, so
   * every slot from the new total up to the old one ends up holding what
   * slot `total` held before the pass; the slots after it are untouched.
   * With no free slot the pass reads past the array as soon as it removes
   * anything, so that case is only defined when nothing has expired.
   */
  function AfterExpiry(slots: seq<Vehicle>, total: int, cutoff: int): (r: seq<Vehicle>)
    requires 0 <= total <= |slots|
    requires total < |slots| || forall k :: 0 <= k < total ==> !Expired(slots[k], cutoff)
    ensures |r| == |slots|
  {
    var kept := Sweep(slots[..total], cutoff);
    if total == |slots| then slots
    else kept + seq(total + 1 - |kept|, _ => slots[total]) + slots[total + 1..]
  }

  // ---------------------------------------------------------------------
  // Counting

  lemma {:induction false} CountAppend(a: seq<Vehicle>, b: seq<Vehicle>, vType: string)
    ensures Count(a + b, vType) == Count(a, vType) + Count(b, vType)
    decreases |b|
  {
    if b == [] {
      assert a + b == a;
    } else {
      var b' := b[..|b| - 1];
      assert (a + b)[..|a + b| - 1] == a + b';
      CountAppend(a, b', vType);
    }
  }

  /** Counts depend only on the classes of the entries, slot by slot. */
  lemma {:induction false} CountSameTypes(s: seq<Vehicle>, t: seq<Vehicle>, vType: string)
    requires |s| == |t|
    requires forall k :: 0 <= k < |s| ==> s[k].vType == t[k].vType
    ensures Count(s, vType) == Count(t, vType)
    decreases |s|
  {
    if s != [] {
      CountSameTypes(s[..|s| - 1], t[..|t| - 1], vType);
    }
  }

  /** When every entry has a known class, the three class counts add up to the number of entries. */
  lemma {:induction false} ClassCountsSumToTotal(s: seq<Vehicle>)
    requires AllKnown(s)
    ensures Count(s, MC) + Count(s, LV) + Count(s, HV) == |s|
    decreases |s|
  {
    if s != [] {
      ClassCountsSumToTotal(s[..|s| - 1]);
    }
  }

  // ---------------------------------------------------------------------
  // The expiry pass

  /** Survivors keep their original relative order. */
  lemma {:induction false} SweepIsSubsequence(s: seq<Vehicle>, cutoff: int)
    ensures IsSubsequence(Sweep(s, cutoff), s)
    decreases |s|
  {
    var r := Sweep(s, cutoff);
    if s == [] {
    } else if Expired(s[0], cutoff) {
      if |s| > 1 {
        SweepIsSubsequence(s[2..], cutoff);
        assert s[1..][1..] == s[2..];
        assert r[0] == s[1..][0] && r[1..] == Sweep(s[2..], cutoff);
        assert IsSubsequence(r, s[1..]);
      }
    } else {
      SweepIsSubsequence(s[1..], cutoff);
      assert r[0] == s[0] && r[1..] == Sweep(s[1..], cutoff);
    }
  }

  /** One step of the pass: the entry it keeps, the entry it may drop, and the rest it still has to walk. */
  lemma SweepStep(s: seq<Vehicle>, cutoff: int) returns (kept: seq<Vehicle>, dropped: seq<Vehicle>, rest: seq<Vehicle>)
    requires s != [] && !(Expired(s[0], cutoff) && |s| == 1)
    ensures |rest| < |s|
    ensures s == dropped + kept + rest
    ensures Sweep(s, cutoff) == kept + Sweep(rest, cutoff)
    ensures forall k :: 0 <= k < |dropped| ==> Expired(dropped[k], cutoff)
    ensures |kept| == 1 && |dropped| <= 1
  {
    if Expired(s[0], cutoff) {
      kept, dropped, rest := [s[1]], [s[0]], s[2..];
    } else {
      kept, dropped, rest := [s[0]], [], s[1..];
    }
  }

  /** The pass removes only expired entries: every entry it drops has timed out,
      and every entry that has not timed out is still there as often as before. */
  lemma {:induction false} SweepRemovesOnlyExpired(s: seq<Vehicle>, cutoff: int)
    ensures multiset(Sweep(s, cutoff)) <= multiset(s)
    ensures forall v :: !Expired(v, cutoff) ==> multiset(Sweep(s, cutoff))[v] == multiset(s)[v]
    decreases |s|
  {
    if s == [] {
    } else if Expired(s[0], cutoff) && |s| == 1 {
      assert s == [s[0]];
    } else {
      var kept, dropped, rest := SweepStep(s, cutoff);
      SweepRemovesOnlyExpired(rest, cutoff);
      assert multiset(s) == multiset(dropped) + multiset(kept) + multiset(rest);
    }
  }

  /** Ids that were pairwise distinct stay so after the pass. */
  lemma SweepKeepsDistinctIds(s: seq<Vehicle>, cutoff: int)
    requires DistinctIds(s)
    ensures DistinctIds(Sweep(s, cutoff))
  {
    var r := Sweep(s, cutoff);
    SweepIsSubsequence(s, cutoff);
    forall i, j | 0 <= i < j < |r| ensures r[i].id != r[j].id {
      SubsequencePositions(r, s, i, j);
    }
  }

  /** Entries whose classes were all known stay so after the pass. */
  lemma SweepKeepsAllKnown(s: seq<Vehicle>, cutoff: int)
    requires AllKnown(s)
    ensures AllKnown(Sweep(s, cutoff))
  {
    var r := Sweep(s, cutoff);
    SweepRemovesOnlyExpired(s, cutoff);
    forall k | 0 <= k < |r| ensures IsKnownType(r[k].vType) {
      assert r[k] in multiset(r);
      assert r[k] in multiset(s);
    }
  }

  /** Counters that agree with entries of known classes add up to the number of entries. */
  lemma TalliedTotal(c: Tally, s: seq<Vehicle>)
    ensures Tallied(c, s) && AllKnown(s) ==> c.mc + c.lv + c.hv == |s|
  {
    if AllKnown(s) {
      ClassCountsSumToTotal(s);
    }
  }

  /** The live entries after a pass, given as `r`, keep distinct ids and
      known classes whenever the entries before it had them. */
  lemma SweptKeepsInvariants(s: seq<Vehicle>, r: seq<Vehicle>, cutoff: int)
    requires r == Sweep(s, cutoff)
    ensures DistinctIds(s) ==> DistinctIds(r)
    ensures AllKnown(s) ==> AllKnown(r)
  {
    if DistinctIds(s) {
      SweepKeepsDistinctIds(s, cutoff);
    }
    if AllKnown(s) {
      SweepKeepsAllKnown(s, cutoff);
    }
  }

  /** In a subsequence of `s`, two different positions come from two different positions of `s`. */
  lemma {:induction false} SubsequencePositions(t: seq<Vehicle>, s: seq<Vehicle>, i: int, j: int)
    requires IsSubsequence(t, s)
    requires 0 <= i < j < |t|
    ensures exists p, q :: 0 <= p < q < |s| && s[p] == t[i] && s[q] == t[j]
    decreases |s|
  {
    assert s != [];
    if t[0] == s[0] && IsSubsequence(t[1..], s[1..]) {
      if i == 0 {
        SubsequenceMember(t[1..], s[1..], j - 1);
        var q :| 0 <= q < |s[1..]| && s[1..][q] == t[1..][j - 1];
        assert s[0] == t[i] && s[q + 1] == t[j];
      } else {
        SubsequencePositions(t[1..], s[1..], i - 1, j - 1);
        var p, q :| 0 <= p < q < |s[1..]| && s[1..][p] == t[1..][i - 1] && s[1..][q] == t[1..][j - 1];
        assert s[p + 1] == t[i] && s[q + 1] == t[j];
      }
    } else {
      SubsequencePositions(t, s[1..], i, j);
      var p, q :| 0 <= p < q < |s[1..]| && s[1..][p] == t[i] && s[1..][q] == t[j];
      assert s[p + 1] == t[i] && s[q + 1] == t[j];
    }
  }

  /** Every entry of a subsequence of `s` occurs in `s`. */
  lemma {:induction false} SubsequenceMember(t: seq<Vehicle>, s: seq<Vehicle>, i: int)
    requires IsSubsequence(t, s)
    requires 0 <= i < |t|
    ensures exists q :: 0 <= q < |s| && s[q] == t[i]
    decreases |s|
  {
    assert s != [];
    if t[0] == s[0] && IsSubsequence(t[1..], s[1..]) {
      if i == 0 {
        assert s[0] == t[i];
      } else {
        SubsequenceMember(t[1..], s[1..], i - 1);
        var q :| 0 <= q < |s[1..]| && s[1..][q] == t[1..][i - 1];
        assert s[q + 1] == t[i];
      }
    } else {
      SubsequenceMember(t, s[1..], i);
      var q :| 0 <= q < |s[1..]| && s[1..][q] == t[i];
      assert s[q + 1] == t[i];
    }
  }

  /** When no entry has timed out, the pass changes nothing. */
  lemma {:induction false} SweepNoneExpired(s: seq<Vehicle>, cutoff: int)
    requires forall k :: 0 <= k < |s| ==> !Expired(s[k], cutoff)
    ensures Sweep(s, cutoff) == s
    decreases |s|
  {
    if s != [] {
      SweepNoneExpired(s[1..], cutoff);
      assert s == [s[0]] + s[1..];
    }
  }

  /** When no two neighbouring entries have both timed out, the pass does
      remove every timed-out entry. */
  lemma {:induction false} SweepClearsIsolatedExpiries(s: seq<Vehicle>, cutoff: int)
    requires forall k :: 0 <= k < |s| - 1 ==> !(Expired(s[k], cutoff) && Expired(s[k + 1], cutoff))
    ensures forall k :: 0 <= k < |Sweep(s, cutoff)| ==> !Expired(Sweep(s, cutoff)[k], cutoff)
    decreases |s|
  {
    var r := Sweep(s, cutoff);
    if s == [] {
    } else if Expired(s[0], cutoff) {
      if |s| > 1 {
        var rest := s[2..];
        SweepClearsIsolatedExpiries(rest, cutoff);
        assert !Expired(s[1], cutoff);
        assert forall k :: 1 <= k < |r| ==> r[k] == Sweep(rest, cutoff)[k - 1];
      }
    } else {
      var rest := s[1..];
      SweepClearsIsolatedExpiries(rest, cutoff);
      assert forall k :: 1 <= k < |r| ==> r[k] == Sweep(rest, cutoff)[k - 1];
    }
  }

  /** When the first two entries have both timed out, the pass removes the
      first; the second moves into its slot, is kept without being examined,
      and so survives the pass although it has timed out. */
  lemma {:induction false} SweepKeepsSecondOfAdjacentExpiries(a: Vehicle, b: Vehicle, rest: seq<Vehicle>, cutoff: int)
    requires Expired(a, cutoff) && Expired(b, cutoff)
    ensures Sweep([a, b] + rest, cutoff) == [b] + Sweep(rest, cutoff)
    ensures Expired(Sweep([a, b] + rest, cutoff)[0], cutoff)
  {
    var s := [a, b] + rest;
    assert s[0] == a && s[1] == b && s[2..] == rest;
  }

  /** The live part of the array after the pass is the sweep of the old live
      part, the slots from there up to the old total repeat old slot `total`,
      and the rest are unchanged. */
  lemma AfterExpiryShape(slots: seq<Vehicle>, total: int, cutoff: int)
    requires 0 <= total <= |slots|
    requires total < |slots| || forall k :: 0 <= k < total ==> !Expired(slots[k], cutoff)
    ensures var r, kept := AfterExpiry(slots, total, cutoff), Sweep(slots[..total], cutoff);
      && r[..|kept|] == kept
      && (total < |slots| ==> forall k :: |kept| <= k <= total ==> r[k] == slots[total])
      && (forall k :: total < k < |slots| ==> r[k] == slots[k])
  {
    if total == |slots| {
      SweepNoneExpired(slots[..total], cutoff);
      assert slots[..total] == slots;
    }
  }

  // ---------------------------------------------------------------------
  // Beacons

  /**
   * A beacon from a sender with no live entry among the first `t` slots:
   * writing `v` into slot `t` and counting it makes the live entries grow by
   * `v` at the end, lists the sender in slot `t`, keeps the ids distinct and
   * the classes known, and keeps the counters in step with the entries.
   */
  lemma AppendEntry(before: seq<Vehicle>, after: seq<Vehicle>, t: int, t': int, v: Vehicle,
                    c: Tally, c': Tally)
    requires 0 <= t < |before| && t' == t + 1
    requires after == before[t := v]
    requires !Indexed(before, v.id, t)
    requires c'.mc == c.mc + (if v.vType == MC then 1 else 0)
    requires c'.lv == c.lv + (if v.vType == LV then 1 else 0)
    requires c'.hv == c.hv + (if v.vType == HV then 1 else 0)
    ensures after[..t'] == before[..t] + [v]
    ensures Indexed(after, v.id, t') && FirstMatch(after, v.id, t') == t
    ensures DistinctIds(before[..t]) ==> DistinctIds(after[..t'])
    ensures AllKnown(before[..t]) && IsKnownType(v.vType) ==> AllKnown(after[..t'])
    ensures Tallied(c, before[..t]) ==> Tallied(c', after[..t'])
  {
    assert after[..t'] == before[..t] + [v];
    assert after[t].id == v.id;
    forall c | c in [MC, LV, HV] ensures Count(after[..t'], c) == Count(before[..t], c) + (if v.vType == c then 1 else 0) {
      assert (before[..t] + [v])[..t] == before[..t];
    }
  }

  /**
   * A beacon from a sender listed among the first `t` slots: setting the
   * last-seen time of its first slot to `time` keeps it listed there with the
   * new time, and changes no id and no class, so distinct ids, known classes
   * and counters in step all carry over.
   */
  lemma RefreshEntry(before: seq<Vehicle>, after: seq<Vehicle>, t: int, carId: int, time: int, c: Tally)
    requires 0 <= t <= |before|
    requires Indexed(before, carId, t)
    requires var k := FirstMatch(before, carId, t);
             after == before[k := before[k].(lastSeenAt := time)]
    ensures Indexed(after, carId, t) && FirstMatch(after, carId, t) == FirstMatch(before, carId, t)
    ensures after[FirstMatch(after, carId, t)].lastSeenAt == time
    ensures DistinctIds(before[..t]) ==> DistinctIds(after[..t])
    ensures AllKnown(before[..t]) ==> AllKnown(after[..t])
    ensures Tallied(c, before[..t]) ==> Tallied(c, after[..t])
  {
    var k := FirstMatch(before, carId, t);
    FirstMatchSameIds(before, after, carId, t);
    forall c | c in [MC, LV, HV] ensures Count(after[..t], c) == Count(before[..t], c) {
      CountSameTypes(after[..t], before[..t], c);
    }
  }

  /** `FirstMatch` looks only at ids, so two tables with the same ids agree on it. */
  lemma {:induction false} FirstMatchSameIds(s: seq<Vehicle>, s': seq<Vehicle>, carId: int, n: int)
    requires n <= |s| == |s'|
    requires forall i :: 0 <= i < |s| ==> s[i].id == s'[i].id
    ensures FirstMatch(s, carId, n) == FirstMatch(s', carId, n)
    decreases n
  {
    if n > 0 {
      FirstMatchSameIds(s, s', carId, n - 1);
    }
  }
}
