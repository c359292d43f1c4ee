/**
 * The statistics a timed session keeps (src/fifteenpuzzle/TimedSession.java):
 * the durations of the solves recorded so far, the current rolling averages
 * over the last 1, 5 and 12 solves and over the whole session, and for the
 * first three the best (smallest) average the session has shown. A Solve is
 * modelled by its duration in milliseconds, the only part the averages read.
 */
module Sessions {
  import opened JavaInt

  /** currentAvg's answer when there are too few solves. */
  const NO_AVG: int := -1
  /** The average length that stands for "every solve of the session". */
  const AVG_ALL_SOLVES: int := -2
  /** The averages shown: single, Ao5, Ao12 and the session average. */
  const AVG_LENS: seq<int> := [1, 5, 12, AVG_ALL_SOLVES]

  /** Durations are stopwatch readings, never negative. */
  predicate Durations(solves: seq<int>)
  {
    forall i :: 0 <= i < |solves| ==> solves[i] >= 0
  }

  /** The sum of the last k durations, the way currentAvg adds them: newest first. */
  function SumLast(solves: seq<int>, k: nat): int
    requires k <= |solves|
  {
    if k == 0 then 0 else SumLast(solves, k - 1) + solves[|solves| - k]
  }

  /** The lengths currentAvg can divide by: a positive count, or every solve of a session that has one. */
  predicate AverageLength(solves: seq<int>, len: int)
  {
    len >= 1 || (len == AVG_ALL_SOLVES && |solves| >= 1)
  }

  /**
   * What currentAvg(len) returns: NO_AVG with fewer than len solves,
   * otherwise the sum of the last len durations (all of them for
   * AVG_ALL_SOLVES) divided by their count, truncated.
   */
  function Average(solves: seq<int>, len: int): int
    requires AverageLength(solves, len)
  {
    if |solves| < len then NO_AVG
    else
      var count := if len == AVG_ALL_SOLVES then |solves| else len;
      Quot(SumLast(solves, count), count)
  }

  /** isBestAvg's test: a real average that there was no best before, or that beats it strictly. */
  predicate Improves(previousBest: int, currentAvg: int)
  {
    (previousBest == NO_AVG && currentAvg != NO_AVG) || (currentAvg != NO_AVG && currentAvg < previousBest)
  }

  /**
   * What bestAvgs holds for an average length after the solves so far:
   * NO_AVG until there are len solves, then replaced by each average that
   * improves on it.
   */
  function BestAverage(solves: seq<int>, len: int): int
    requires len >= 1
    decreases |solves|
  {
    if |solves| < len then NO_AVG
    else
      var previousBest := BestAverage(solves[..|solves| - 1], len);
      var currentAvg := Average(solves, len);
      if Improves(previousBest, currentAvg) then currentAvg else previousBest
  }

  // ---------------------------------------------------------------------------
  // Properties of the averages

  /** Sums of durations within [lo, hi] lie within count times the bounds. */
  lemma {:induction false} SumLastBounds(solves: seq<int>, k: nat, lo: int, hi: int)
    requires k <= |solves|
    requires forall i :: |solves| - k <= i < |solves| ==> lo <= solves[i] <= hi
    ensures k * lo <= SumLast(solves, k) <= k * hi
  {
    if k > 0 {
      SumLastBounds(solves, k - 1, lo, hi);
    }
  }

  /** Sums of durations are never negative. */
  lemma {:induction false} SumLastNonNegative(solves: seq<int>, k: nat)
    requires k <= |solves| && Durations(solves)
    ensures SumLast(solves, k) >= 0
  {
    if k > 0 {
      SumLastNonNegative(solves, k - 1);
    }
  }

  /** A truncated quotient of a sum within count times the bounds lies within the bounds. */
  lemma QuotBounds(sum: int, count: int, lo: int, hi: int)
    requires count >= 1 && 0 <= lo && count * lo <= sum <= count * hi
    ensures lo <= Quot(sum, count) <= hi
  {
    var q := sum / count;
    assert sum == count * q + sum % count;
    if q < lo {
      assert count * (lo - q) >= count by { MulAtLeast(count, lo - q); }
    }
    if q > hi {
      assert count * (q - hi) >= count by { MulAtLeast(count, q - hi); }
    }
  }

  lemma MulAtLeast(a: int, d: int)
    requires a >= 1 && d >= 1
    ensures a * d >= a
  {
  }

  /**
   * An average is bounded by the durations it covers: with every one of the
   * last count durations in [lo, hi], so is the truncated mean. In
   * particular an average of equal durations is that duration.
   */
  lemma AverageWithin(solves: seq<int>, len: int, lo: int, hi: int)
    requires AverageLength(solves, len) && |solves| >= len && 0 <= lo
    requires var count := if len == AVG_ALL_SOLVES then |solves| else len;
      forall i :: |solves| - count <= i < |solves| ==> lo <= solves[i] <= hi
    ensures lo <= Average(solves, len) <= hi
  {
    var count := if len == AVG_ALL_SOLVES then |solves| else len;
    SumLastBounds(solves, count, lo, hi);
    QuotBounds(SumLast(solves, count), count, lo, hi);
  }

  /** The single average is the last solve's duration. */
  lemma AverageSingle(solves: seq<int>)
    requires |solves| >= 1
    ensures Average(solves, 1) == solves[|solves| - 1]
  {
    assert SumLast(solves, 1) == solves[|solves| - 1];
  }

  /**
   * With durations that are never negative, an average is never NO_AVG
   * unless there are too few solves: the sentinel cannot be mistaken for a
   * real average.
   */
  lemma AverageMissing(solves: seq<int>, len: int)
    requires AverageLength(solves, len) && Durations(solves)
    ensures Average(solves, len) == NO_AVG <==> |solves| < len
    ensures |solves| >= len ==> Average(solves, len) >= 0
  {
    if |solves| >= len {
      var count := if len == AVG_ALL_SOLVES then |solves| else len;
      SumLastNonNegative(solves, count);
    }
  }

  /** A tie is not a new best, and a new best never exceeds an existing one. */
  lemma ImprovesStrictly(previousBest: int, currentAvg: int)
    ensures !Improves(previousBest, previousBest)
    ensures Improves(previousBest, currentAvg) ==> currentAvg != NO_AVG
    ensures Improves(previousBest, currentAvg) && previousBest != NO_AVG ==> currentAvg < previousBest
    ensures previousBest >= 0 && currentAvg >= 0 ==> (Improves(previousBest, currentAvg) <==> currentAvg < previousBest)
  {
  }

  /**
   * The best average is the smallest average of that length the session has
   * shown: no larger than the average after any number j >= len of solves,
   * and equal to one of them; NO_AVG exactly while there are too few solves.
   */
  lemma {:induction false} BestIsSmallest(solves: seq<int>, len: int)
    requires len >= 1 && Durations(solves)
    ensures BestAverage(solves, len) == NO_AVG <==> |solves| < len
    ensures forall j :: len <= j <= |solves| ==> BestAverage(solves, len) <= Average(solves[..j], len)
    ensures |solves| >= len ==> exists j :: len <= j <= |solves| && BestAverage(solves, len) == Average(solves[..j], len)
    decreases |solves|
  {
    if |solves| >= len {
      var n := |solves|;
      var prefix := solves[..n - 1];
      assert Durations(prefix);
      BestIsSmallest(prefix, len);
      AverageMissing(solves, len);
      assert solves[..n] == solves;
      forall j | len <= j <= n - 1
        ensures solves[..j] == prefix[..j]
      {
      }
      if n - 1 >= len {
        var j :| len <= j <= n - 1 && BestAverage(prefix, len) == Average(prefix[..j], len);
        assert prefix[..j] == solves[..j];
        AverageMissing(prefix[..j], len);
      }
    }
  }

  /** Once a best exists, a further solve never raises it. */
  lemma BestNeverIncreases(solves: seq<int>, duration: int, len: int)
    requires len >= 1 && BestAverage(solves, len) != NO_AVG
    ensures BestAverage(solves + [duration], len) <= BestAverage(solves, len)
  {
    assert (solves + [duration])[..|solves|] == solves;
  }

  // ---------------------------------------------------------------------------
  // The session

  class TimedSession {
    var sessionSolves: seq<int>
    const bestAvgs: array<int>

    /**
     * The bookkeeping the session keeps: durations are never negative, each
     * of the first three slots of bestAvgs is the best average of its length
     * so far, and the session-average slot is never set.
     */
    ghost predicate Valid()
      reads this, bestAvgs
    {
      bestAvgs.Length == |AVG_LENS| && Durations(sessionSolves) &&
      (forall i :: 0 <= i < |AVG_LENS| - 1 ==> bestAvgs[i] == BestAverage(sessionSolves, AVG_LENS[i])) &&
      bestAvgs[|AVG_LENS| - 1] == NO_AVG
    }

    /** A new session: no solves and every best average NO_AVG. */
    constructor ()
      ensures Valid() && sessionSolves == [] && fresh(bestAvgs)
      ensures forall i :: 0 <= i < bestAvgs.Length ==> bestAvgs[i] == NO_AVG
    {
      sessionSolves := [];
      var bests := new int[|AVG_LENS|];
      for i := 0 to |AVG_LENS|
        invariant forall j :: 0 <= j < i ==> bests[j] == NO_AVG
      {
        bests[i] := NO_AVG;
      }
      bestAvgs := bests;
    }

    /** TimedSession.currentAvg: the average of the last len solves, or NO_AVG. */
    method CurrentAvg(len: int) returns (avg: int)
      requires AverageLength(sessionSolves, len)
      ensures avg == Average(sessionSolves, len)
    {
      if |sessionSolves| < len {
        return NO_AVG;
      }
      var count := len;
      if count == AVG_ALL_SOLVES {
        count := |sessionSolves|;
      }
      var sum := 0;
      for i := 1 to count + 1
        invariant sum == SumLast(sessionSolves, i - 1)
      {
        sum := sum + sessionSolves[|sessionSolves| - i];
      }
      avg := Quot(sum, count);
    }

    /** TimedSession.indexOf: the first index holding key, or -1. */
    method IndexOf(values: seq<int>, key: int) returns (index: int)
      ensures -1 <= index < |values|
      ensures index == -1 <==> key !in values
      ensures index >= 0 ==> values[index] == key && key !in values[..index]
    {
      for i := 0 to |values|
        invariant key !in values[..i]
      {
        if values[i] == key {
          return i;
        }
      }
      return -1;
    }

    /** TimedSession.isBestAvg: whether currentAvg improves on the best stored for len. */
    method IsBestAvg(len: int, currentAvg: int) returns (best: bool)
      requires bestAvgs.Length == |AVG_LENS| && len in AVG_LENS
      ensures forall i :: 0 <= i < |AVG_LENS| && AVG_LENS[i] == len ==> (best <==> Improves(bestAvgs[i], currentAvg))
    {
      var index := IndexOf(AVG_LENS, len);
      var previousBest := bestAvgs[index];
      return (previousBest == NO_AVG && currentAvg != NO_AVG) || (currentAvg != NO_AVG && currentAvg < previousBest);
    }

    /**
     * The bestAvgs part of TimedSession.updateAverages: every average but
     * the session average that improves on its best replaces it.
     */
    method UpdateBestAvgs()
      requires bestAvgs.Length == |AVG_LENS| && |sessionSolves| >= 1
      modifies bestAvgs
      ensures forall i :: 0 <= i < |AVG_LENS| - 1 ==>
        bestAvgs[i] == if Improves(old(bestAvgs[i]), Average(sessionSolves, AVG_LENS[i])) then Average(sessionSolves, AVG_LENS[i]) else old(bestAvgs[i])
      ensures bestAvgs[|AVG_LENS| - 1] == old(bestAvgs[|AVG_LENS| - 1])
    {
      for i := 0 to |AVG_LENS|
        invariant forall j :: 0 <= j < i && j < |AVG_LENS| - 1 ==>
          bestAvgs[j] == if Improves(old(bestAvgs[j]), Average(sessionSolves, AVG_LENS[j])) then Average(sessionSolves, AVG_LENS[j]) else old(bestAvgs[j])
        invariant forall j :: i <= j < |AVG_LENS| ==> bestAvgs[j] == old(bestAvgs[j])
        invariant i == |AVG_LENS| ==> bestAvgs[|AVG_LENS| - 1] == old(bestAvgs[|AVG_LENS| - 1])
      {
        var currentAvg := CurrentAvg(AVG_LENS[i]);
        if AVG_LENS[i] != AVG_ALL_SOLVES {
          if currentAvg == NO_AVG {
          } else {
            var best := IsBestAvg(AVG_LENS[i], currentAvg);
            if best {
              bestAvgs[i] := currentAvg;
            }
          }
        }
      }
    }

    /** TimedSession.saveSolve: the solve is appended and the best averages brought up to date. */
    method SaveSolve(duration: int)
      requires Valid() && duration >= 0
      modifies this, bestAvgs
      ensures Valid() && sessionSolves == old(sessionSolves) + [duration]
    {
      sessionSolves := sessionSolves + [duration];
      UpdateBestAvgs();
      forall i | 0 <= i < |AVG_LENS| - 1
        ensures bestAvgs[i] == BestAverage(sessionSolves, AVG_LENS[i])
      {
        assert sessionSolves[..|sessionSolves| - 1] == old(sessionSolves);
      }
    }
  }
}
