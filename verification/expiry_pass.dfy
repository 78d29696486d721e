/**
 * The proof of the timeout pass, on sequences: the state the pass keeps
 * between two slots, how one kept or removed slot carries it forward, and
 * what it gives once the walk stops (the live entries are `Sweep` of the old
 * ones, the array as a whole is `AfterExpiry` of the old one, and each class
 * counter has dropped by the number of removed entries of its class).
 */
module ExpiryPass {
  import opened VehicleRegistry

  /**
   * Where the timeout pass stands after walking up to slot `i` of the array
   * `a`, with `t` live entries left, having started from `original` with
   * `total0` live entries: the slots before `i` followed by the sweep of the
   * slots still to walk give the sweep of the original entries; until the
   * first removal nothing has moved; the slots from `t` up to `total0` all
   * hold what slot `total0` held; later slots are untouched.
   */
  ghost predicate PassInvariant(a: seq<Vehicle>, i: int, t: int, original: seq<Vehicle>, total0: int, cutoff: int)
  {
    && |a| == |original| && 0 <= t <= total0 <= |a| && 0 <= i <= t + 1
    && (i <= t ==> a[..i] + Sweep(a[i..t], cutoff) == Sweep(original[..total0], cutoff))
    && (i == t + 1 ==> a[..t] == Sweep(original[..total0], cutoff))
    && (t == total0 ==> a == original)
    && (total0 < |a| ==> forall k :: t <= k <= total0 ==> a[k] == original[total0])
    && (forall k :: total0 < k < |a| ==> a[k] == original[k])
  }

  lemma PassStart(a: seq<Vehicle>, total0: int, cutoff: int)
    requires 0 <= total0 <= |a|
    ensures PassInvariant(a, 0, total0, a, total0, cutoff)
  {
    assert a[..0] + Sweep(a[0..total0], cutoff) == Sweep(a[..total0], cutoff) by {
      assert a[0..total0] == a[..total0];
    }
  }

  /** A slot that has not timed out stays where it is and the walk moves on. */
  lemma PassKeepStep(a: seq<Vehicle>, i: int, t: int, original: seq<Vehicle>, total0: int, cutoff: int)
    requires PassInvariant(a, i, t, original, total0, cutoff)
    requires i < t && !Expired(a[i], cutoff)
    ensures PassInvariant(a, i + 1, t, original, total0, cutoff)
  {
    var rest := a[i..t];
    assert rest[1..] == a[i + 1..t];
    assert a[..i + 1] == a[..i] + [rest[0]];
  }

  /** The shift that closes the gap reads slot `t`, which exists: either some
      slot was already removed, or the table was not full to begin with, or
      nothing can time out. */
  lemma PassHasRoom(a: seq<Vehicle>, i: int, t: int, original: seq<Vehicle>, total0: int, cutoff: int)
    requires PassInvariant(a, i, t, original, total0, cutoff)
    requires total0 == |a| ==> forall k :: 0 <= k < total0 ==> !Expired(original[k], cutoff)
    requires i < t && Expired(a[i], cutoff)
    ensures t < |a|
  {
  }

  /** A timed-out slot is removed by the shift, and the walk moves past the slot it just refilled. */
  lemma PassRemoveStep(before: seq<Vehicle>, after: seq<Vehicle>, i: int, t: int, newTotal: int, original: seq<Vehicle>, total0: int, cutoff: int,
                        c: Tally, c': Tally, c0: Tally)
    requires PassInvariant(before, i, t, original, total0, cutoff)
    requires CountersTrack(c, c0, original[..total0], before[..t])
    requires i < t < |before| && Expired(before[i], cutoff) && newTotal == t - 1
    requires after == before[..i] + before[i + 1..t + 1] + before[t..]
    requires c'.mc == c.mc - (if before[i].vType == MC then 1 else 0)
    requires c'.lv == c.lv - (if before[i].vType == LV then 1 else 0)
    requires c'.hv == c.hv - (if before[i].vType == HV then 1 else 0)
    ensures PassInvariant(after, i + 1, newTotal, original, total0, cutoff)
    ensures CountersTrack(c', c0, original[..total0], after[..newTotal])
  {
    RemovalCounts(c, c', c0, original[..total0], before, after, i, t, newTotal);
    ShiftParts(before, after, i, t);
    RemovalKeepsSweep(before, after, i, t, cutoff);
    forall k | t - 1 <= k < |after|
      ensures after[k] == before[if k == t - 1 then t else k]
    {
      if k == t - 1 {
        assert after[i..t][k - i] == before[i + 1..t + 1][k - i];
      } else {
        assert after[t..][k - t] == before[t..][k - t];
      }
    }
  }

  /** Removing the timed-out slot `i` and stepping past the slot that took
      its place leaves the swept result of the walked and unwalked slots as it was. */
  lemma RemovalKeepsSweep(before: seq<Vehicle>, after: seq<Vehicle>, i: int, t: int, cutoff: int)
    requires 0 <= i < t < |before| == |after| && Expired(before[i], cutoff)
    requires after[..i] == before[..i] && after[i..t] == before[i + 1..t + 1]
    ensures i + 1 < t ==> after[..i + 1] + Sweep(after[i + 1..t - 1], cutoff) == before[..i] + Sweep(before[i..t], cutoff)
    ensures i + 1 == t ==> after[..t - 1] == before[..i] + Sweep(before[i..t], cutoff)
  {
    var walked := before[i..t];
    if i + 1 < t {
      assert walked[2..] == after[i + 1..t - 1] by {
        forall k | 0 <= k < t - i - 2
          ensures walked[2..][k] == after[i + 1..t - 1][k]
        {
          assert after[i + 1..t - 1][k] == after[i..t][k + 1];
        }
      }
      assert after[..i + 1] == before[..i] + [walked[1]] by {
        assert after[..i + 1] == after[..i] + [after[i]];
      }
    } else {
      assert Sweep(walked, cutoff) == [];
    }
  }

  /** The three parts of the array the shift leaves behind: the slots before
      `i` as they were, slots `i` up to `t - 1` taken from one slot higher,
      and the slots from `t` on as they were. */
  lemma ShiftParts(before: seq<Vehicle>, after: seq<Vehicle>, i: int, t: int)
    requires 0 <= i < t < |before|
    requires after == before[..i] + before[i + 1..t + 1] + before[t..]
    ensures |after| == |before|
    ensures after[..i] == before[..i]
    ensures after[i..t] == before[i + 1..t + 1]
    ensures after[t..] == before[t..]
  {
  }

  /** When the walk stops, the live slots hold the sweep of the original entries. */
  lemma PassDone(a: seq<Vehicle>, i: int, t: int, original: seq<Vehicle>, total0: int, cutoff: int,
                  c: Tally, c0: Tally)
    requires PassInvariant(a, i, t, original, total0, cutoff)
    requires total0 < |original| || forall k :: 0 <= k < total0 ==> !Expired(original[k], cutoff)
    requires CountersTrack(c, c0, original[..total0], a[..t])
    requires i >= t
    ensures a == AfterExpiry(original, total0, cutoff)
    ensures a[..t] == Sweep(original[..total0], cutoff)
    ensures c.mc == c0.mc - (Count(original[..total0], MC) - Count(a[..t], MC))
    ensures c.lv == c0.lv - (Count(original[..total0], LV) - Count(a[..t], LV))
    ensures c.hv == c0.hv - (Count(original[..total0], HV) - Count(a[..t], HV))
    ensures Tallied(c0, original[..total0]) ==> Tallied(c, a[..t])
  {
    PassEnd(a, i, t, original, total0, cutoff);
    var r := AfterExpiry(original, total0, cutoff);
    AfterExpiryShape(original, total0, cutoff);
    if total0 == |original| {
      SweepNoneExpired(original[..total0], cutoff);
    } else {
      forall k | 0 <= k < |a|
        ensures a[k] == r[k]
      {
        if k < t {
          assert a[k] == a[..t][k];
        }
      }
    }
  }

  lemma PassEnd(a: seq<Vehicle>, i: int, t: int, original: seq<Vehicle>, total0: int, cutoff: int)
    requires PassInvariant(a, i, t, original, total0, cutoff)
    requires i >= t
    ensures a[..t] == Sweep(original[..total0], cutoff)
  {
    if i == t {
      assert a[i..t] == [];
      assert a[..i] + [] == a[..i];
    }
  }

  /** Each class counter started at its initial value and has gone down by the
      number of entries of that class removed so far. */
  ghost predicate CountersTrack(c: Tally, c0: Tally, original: seq<Vehicle>, current: seq<Vehicle>)
  {
    && c.mc == c0.mc - Count(original, MC) + Count(current, MC)
    && c.lv == c0.lv - Count(original, LV) + Count(current, LV)
    && c.hv == c0.hv - Count(original, HV) + Count(current, HV)
  }

  lemma RemovalCounts(c: Tally, c': Tally, c0: Tally, original: seq<Vehicle>, before: seq<Vehicle>, after: seq<Vehicle>, i: int, t: int, newTotal: int)
    requires 0 <= i < t < |before| && newTotal == t - 1
    requires after == before[..i] + before[i + 1..t + 1] + before[t..]
    requires CountersTrack(c, c0, original, before[..t])
    requires c'.mc == c.mc - (if before[i].vType == MC then 1 else 0)
    requires c'.lv == c.lv - (if before[i].vType == LV then 1 else 0)
    requires c'.hv == c.hv - (if before[i].vType == HV then 1 else 0)
    ensures CountersTrack(c', c0, original, after[..newTotal])
  {
    RemovalCount(before, after, i, t, MC);
    RemovalCount(before, after, i, t, LV);
    RemovalCount(before, after, i, t, HV);
  }

  /** One removal lowers the count of the removed entry's class by one and leaves the other counts alone. */
  lemma RemovalCount(before: seq<Vehicle>, after: seq<Vehicle>, i: int, t: int, vType: string)
    requires 0 <= i < t < |before|
    requires after == before[..i] + before[i + 1..t + 1] + before[t..]
    ensures Count(after[..t - 1], vType) + (if before[i].vType == vType then 1 else 0) == Count(before[..t], vType)
  {
    assert before[..t] == before[..i] + [before[i]] + before[i + 1..t];
    assert after[..t - 1] == before[..i] + before[i + 1..t];
    CountAppend(before[..i] + [before[i]], before[i + 1..t], vType);
    CountAppend(before[..i], [before[i]], vType);
    CountAppend(before[..i], before[i + 1..t], vType);
    assert [before[i]][..0] == [];
  }

  /** One move of the shift loop: slot `j` takes the entry of slot `j + 1`. */
  lemma ShiftStep(before: seq<Vehicle>, current: seq<Vehicle>, next: seq<Vehicle>, i: int, j: int)
    requires 0 <= i <= j < |before| - 1
    requires current == before[..i] + before[i + 1..j + 1] + before[j..]
    requires next == current[j := current[j + 1]]
    ensures next == before[..i] + before[i + 1..j + 2] + before[j + 1..]
  {
    assert |next| == |before|;
    forall k | 0 <= k < |next|
      ensures next[k] == (before[..i] + before[i + 1..j + 2] + before[j + 1..])[k]
    {
    }
  }
}
