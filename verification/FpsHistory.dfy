/** The frame-time ring buffer behind the ten-second frame rate (Demo/demo_runtime.cpp). */
module FpsHistory {
  import opened Prelude

  const CAPACITY := 4096
  const WINDOW := 10000
  const SAMPLE_PERIOD := 250
  const U32 := 0x1_0000_0000

  /** Samples older than this are dropped. */
  function Cutoff(now: int): int { if now > WINDOW then now - WINDOW else 0 }

  /** How many samples are not older than the cutoff. */
  function CountSince(samples: seq<int>, cutoff: int): nat {
    if samples == [] then 0
    else CountSince(samples[..|samples| - 1], cutoff) + (if samples[|samples| - 1] >= cutoff then 1 else 0)
  }

  predicate NonDecreasing(samples: seq<int>) {
    forall i, j :: 0 <= i <= j < |samples| ==> samples[i] <= samples[j]
  }

  lemma {:induction false} CountIsBounded(samples: seq<int>, cutoff: int)
    ensures CountSince(samples, cutoff) <= |samples|
    decreases |samples|
  {
    if samples != [] {
      CountIsBounded(samples[..|samples| - 1], cutoff);
    }
  }

  /** In a non-decreasing history the samples not older than the cutoff are exactly the last ones. */
  lemma {:induction false} RecentAreLast(samples: seq<int>, cutoff: int, i: nat)
    requires NonDecreasing(samples) && i < |samples|
    ensures samples[i] >= cutoff <==> i >= |samples| - CountSince(samples, cutoff)
    decreases |samples|
  {
    var n := |samples| - 1;
    var front := samples[..n];
    assert NonDecreasing(front);
    CountIsBounded(front, cutoff);
    if samples[n] < cutoff {
      NoneSince(front, cutoff);
    } else if i < n {
      RecentAreLast(front, cutoff, i);
    }
  }

  lemma {:induction false} NoneSince(samples: seq<int>, cutoff: int)
    requires forall i :: 0 <= i < |samples| ==> samples[i] < cutoff
    ensures CountSince(samples, cutoff) == 0
    decreases |samples|
  {
    if samples != [] {
      NoneSince(samples[..|samples| - 1], cutoff);
    }
  }

  lemma {:induction false} LaterCutoffKeepsFewer(samples: seq<int>, cutoff: int, later: int)
    requires cutoff <= later
    ensures CountSince(samples, later) <= CountSince(samples, cutoff)
    decreases |samples|
  {
    if samples != [] {
      LaterCutoffKeepsFewer(samples[..|samples| - 1], cutoff, later);
    }
  }

  /** A sample is within the window exactly when it is at most ten seconds old. */
  lemma WindowIsTenSeconds(sample: int, now: int)
    requires 0 <= sample <= now
    ensures sample >= Cutoff(now) <==> now - sample <= 10_000
  {}

  /** The count that the buffer must show after a frame: samples within the window, at most the capacity. */
  function Expected(samples: seq<int>): nat {
    if samples == [] then 0 else Min(CAPACITY, CountSince(samples, Cutoff(samples[|samples| - 1])))
  }

  /** Position of the sample that is `age` frames old, the newest being 1. */
  function Slot(writeIndex: int, age: int): int {
    if age <= writeIndex then writeIndex - age else writeIndex + CAPACITY - age
  }

  lemma SlotIsModular(writeIndex: int, age: int)
    requires 0 <= writeIndex < CAPACITY && 1 <= age <= CAPACITY
    ensures (writeIndex + CAPACITY - age) % CAPACITY == Slot(writeIndex, age)
    ensures 0 <= Slot(writeIndex, age) < CAPACITY
  {}

  class History {
    const ring: array<int>
    var writeIndex: nat
    var count: nat
    var frameCounter: nat
    var displayed: int
    var average: int
    /** Every sample since the last reset. */
    ghost var samples: seq<int>

    constructor ()
      ensures Valid() && fresh(ring) && samples == []
    {
      ring := new int[CAPACITY](_ => 0);
      writeIndex, count, frameCounter, displayed, average := 0, 0, 0, 0, 0;
      samples := [];
    }

    /** The buffer holds the last `count` samples, newest just before the write index. */
    ghost predicate Holds()
      reads this, ring
    {
      && ring.Length == CAPACITY && writeIndex < CAPACITY
      && count <= CAPACITY && count <= |samples|
      && forall age :: 1 <= age <= count ==> 0 <= Slot(writeIndex, age) < CAPACITY && ring[Slot(writeIndex, age)] == samples[|samples| - age]
    }

    ghost predicate Valid()
      reads this, ring
    {
      Holds() && NonDecreasing(samples) && count == Expected(samples)
    }

    /** The fields that `demo_reset_run` clears. */
    method Restart()
      requires Valid()
      modifies this
      ensures Valid() && samples == [] && count == 0
      ensures displayed == average == frameCounter == 0
    {
      writeIndex, count, frameCounter, displayed, average := 0, 0, 0, 0, 0;
      samples := [];
    }

    /** Write the newest sample, overwriting the oldest when the ring is full. */
    method Push(now: int)
      requires Valid()
      modifies this`writeIndex, this`count, this`samples, ring
      ensures Holds() && samples == old(samples) + [now]
      ensures count == Min(CAPACITY, old(count) + 1)
    {
      ghost var w, n := writeIndex, count;
      ring[writeIndex] := now;
      writeIndex := (writeIndex + 1) % CAPACITY;
      if count < CAPACITY {
        count := count + 1;
      }
      samples := samples + [now];
      forall age | 1 <= age <= count
        ensures 0 <= Slot(writeIndex, age) < CAPACITY && ring[Slot(writeIndex, age)] == samples[|samples| - age]
      {
        SlotAfterPush(w, age);
        if age > 1 {
          assert samples[|samples| - age] == old(samples)[|old(samples)| - (age - 1)];
        }
      }
    }

    /** The dropping loop: from the oldest sample on, as long as it is before the cutoff. */
    method DropOld(cutoff: int)
      requires Holds() && NonDecreasing(samples)
      requires CountSince(samples, cutoff) <= count || count == CAPACITY
      modifies this`count
      ensures Holds() && count == Min(CAPACITY, CountSince(samples, cutoff))
    {
      ghost var goal := Min(CAPACITY, CountSince(samples, cutoff));
      while count > 0
        invariant Holds() && goal <= count
      {
        SlotIsModular(writeIndex, count);
        var oldest := (writeIndex + CAPACITY - count) % CAPACITY;
        RecentAreLast(samples, cutoff, |samples| - count);
        if ring[oldest] >= cutoff {
          break;
        }
        count := count - 1;
      }
    }

    /** A new sample, then the dropping loop for its cutoff. */
    method Record(now: int)
      requires Valid() && 0 <= now
      requires samples != [] ==> samples[|samples| - 1] <= now
      modifies this`writeIndex, this`count, this`samples, ring
      ensures Valid() && samples == old(samples) + [now] && 1 <= count
      ensures count == Min(CAPACITY, CountSince(samples, Cutoff(now)))
    {
      hide CountSince, NonDecreasing, Holds;
      ghost var before := samples;
      FrameCounts(before, now);
      Push(now);
      var cutoff := if now > WINDOW then now - WINDOW else 0;
      DropOld(cutoff);
    }

    /** The average over the samples held; the branch for an empty history cannot be reached. */
    method UpdateAverage(now: int)
      requires Valid() && 1 <= count == Min(CAPACITY, CountSince(samples, Cutoff(now)))
      modifies this`average
      ensures var oldest := samples[|samples| - count];
              && oldest >= Cutoff(now)
              && average == if now <= oldest then displayed else count * 1000 / (now - oldest)
    {
      hide CountSince;
      SlotIsModular(writeIndex, count);
      var oldest := (writeIndex + CAPACITY - count) % CAPACITY;
      RecentAreLast(samples, Cutoff(now), |samples| - count);
      var age := now - ring[oldest];
      assert ring[oldest] == samples[|samples| - count];
      if age <= 0 {
        average := displayed;
      } else {
        average := count * 1000 / age;
      }
    }

    /** `demo_update_fps_counter` with its two elapsed times as arguments: milliseconds since the run started
        and since the display was last refreshed. After every frame the ring holds exactly the samples within
        the window, up to its capacity, and it is never empty. */
    method Update(elapsed: int, sinceRefresh: int)
      requires Valid() && elapsed < U32
      requires samples != [] ==> samples[|samples| - 1] <= Max(0, elapsed)
      modifies this, ring
      ensures var now := Max(0, elapsed);
              && Valid() && samples == old(samples) + [now]
              && 1 <= count == Min(CAPACITY, CountSince(samples, Cutoff(now)))
              && var oldest := samples[|samples| - count];
              && oldest >= Cutoff(now)
              && average == if now <= oldest then old(displayed) else count * 1000 / (now - oldest)
      ensures if sinceRefresh < SAMPLE_PERIOD then displayed == old(displayed) && frameCounter == old(frameCounter) + 1
              else displayed == (old(frameCounter) + 1) * 1000 / sinceRefresh && frameCounter == 0
    {
      hide CountSince, NonDecreasing, Slot;
      frameCounter := frameCounter + 1;
      var now := if elapsed < 0 then 0 else elapsed;
      Record(now);
      UpdateAverage(now);
      if sinceRefresh < SAMPLE_PERIOD {
        return;
      }
      displayed := frameCounter * 1000 / sinceRefresh;
      frameCounter := 0;
    }
  }

  lemma SlotAfterPush(w: int, age: int)
    requires 0 <= w < CAPACITY && 1 <= age <= CAPACITY
    ensures var w' := (w + 1) % CAPACITY;
            && 0 <= Slot(w', age) < CAPACITY
            && Slot(w', age) == (if age == 1 then w else Slot(w, age - 1))
            && (age > 1 ==> Slot(w, age - 1) != w)
  {}

  /** Between two frames the window only moves forward, so what it keeps was in the ring before. */
  lemma FrameCounts(before: seq<int>, now: int)
    requires NonDecreasing(before) && (before != [] ==> before[|before| - 1] <= now) && now >= 0
    ensures var samples := before + [now];
            && NonDecreasing(samples)
            && 1 <= CountSince(samples, Cutoff(now)) <= |samples|
            && (CountSince(samples, Cutoff(now)) <= Min(CAPACITY, Expected(before) + 1)
                || Min(CAPACITY, Expected(before) + 1) == CAPACITY)
  {
    var samples := before + [now];
    assert samples[..|before|] == before;
    CountIsBounded(samples, Cutoff(now));
    if before != [] {
      LaterCutoffKeepsFewer(before, Cutoff(before[|before| - 1]), Cutoff(now));
    }
  }
}
