/**
 The experiment schedule of client/client.cc.  The random gaps between requests are an arbitrary
 list; the running total is a real number and every deadline is its ceiling, in nanoseconds.
 */
module Schedules {
  import opened Common

  /** The time that has passed after the first `n` gaps. */
  function Total(gaps: seq<real>, n: nat): real
    requires n <= |gaps|
  {
    if n == 0 then 0.0 else Total(gaps, n - 1) + gaps[n - 1]
  }

  function Elapsed(gaps: seq<real>, n: nat): int
    requires n <= |gaps|
  {
    Ceil(Total(gaps, n))
  }

  ghost predicate NonNegative(gaps: seq<real>) {
    forall i :: 0 <= i < |gaps| ==> gaps[i] >= 0.0
  }

  ghost predicate NonDecreasing(s: seq<int>) {
    forall i, j :: 0 <= i <= j < |s| ==> s[i] <= s[j]
  }

  lemma {:induction false} ElapsedGrows(gaps: seq<real>, m: nat, n: nat)
    requires NonNegative(gaps) && m <= n <= |gaps|
    ensures Total(gaps, m) <= Total(gaps, n) && Elapsed(gaps, m) <= Elapsed(gaps, n)
    decreases n
  {
    if m < n {
      ElapsedGrows(gaps, m, n - 1);
    }
  }

  /** From request `from`, the phase up to `to` is the shortest that lasts at least `duration`. */
  ghost predicate Shortest(gaps: seq<real>, from: nat, to: nat, duration: int) {
    && from <= to <= |gaps|
    && Elapsed(gaps, to) - Elapsed(gaps, from) >= duration
    && forall k :: from <= k < to ==> Elapsed(gaps, k) - Elapsed(gaps, from) < duration
  }

  datatype Phases = Phases(pre: nat, measure: nat, post: nat)

  /** The deadlines follow the gaps, and the phases cut them into three. */
  ghost predicate IsSchedule(gaps: seq<real>, deadlines: seq<int>, p: Phases,
                             warmup: int, samples: nat, cooldown: int)
  {
    && |deadlines| == p.pre + p.measure + p.post <= |gaps|
    && (forall i :: 0 <= i < |deadlines| ==> deadlines[i] == Elapsed(gaps, i + 1))
    && p.measure == samples
    && Shortest(gaps, 0, p.pre, warmup)
    && Shortest(gaps, p.pre + p.measure, |deadlines|, cooldown)
  }

  lemma ScheduleIsOrdered(gaps: seq<real>, deadlines: seq<int>, p: Phases, warmup: int, samples: nat, cooldown: int)
    requires NonNegative(gaps) && IsSchedule(gaps, deadlines, p, warmup, samples, cooldown)
    ensures NonDecreasing(deadlines)
    ensures forall i :: 0 <= i < |deadlines| ==> deadlines[i] >= 0
  {
    forall i, j | 0 <= i <= j < |deadlines|
      ensures 0 <= deadlines[i] <= deadlines[j]
    {
      ElapsedGrows(gaps, i + 1, j + 1);
      ElapsedGrows(gaps, 0, i + 1);
    }
  }

  /** When the `n`-th request is due; the experiment itself starts at zero. */
  function Due(deadlines: seq<int>, n: nat): int
    requires n <= |deadlines|
  {
    if n == 0 then 0 else deadlines[n - 1]
  }

  /** From one deadline to the next it takes the gap, rounded either way.  The warm-up ends with the first deadline
      that reaches it, the samples asked for follow, and the cool-down again ends with the first that reaches it. */
  lemma PhasesLast(gaps: seq<real>, deadlines: seq<int>, p: Phases, warmup: int, samples: nat, cooldown: int)
    requires IsSchedule(gaps, deadlines, p, warmup, samples, cooldown)
    ensures forall i :: 0 <= i < |deadlines| ==>
              gaps[i] - 1.0 < (Due(deadlines, i + 1) - Due(deadlines, i)) as real < gaps[i] + 1.0
    ensures |deadlines| == p.pre + samples + p.post
    ensures Due(deadlines, p.pre) >= warmup && (p.pre > 0 ==> Due(deadlines, p.pre - 1) < warmup)
    ensures var from, to := p.pre + samples, |deadlines|;
            && Due(deadlines, to) - Due(deadlines, from) >= cooldown
            && (p.post > 0 ==> Due(deadlines, to - 1) - Due(deadlines, from) < cooldown)
  {
    forall n | 0 <= n <= |deadlines|
      ensures Due(deadlines, n) == Elapsed(gaps, n)
    {
      DueIsElapsed(gaps, deadlines, n);
    }
    forall i | 0 <= i < |deadlines|
      ensures gaps[i] - 1.0 < (Due(deadlines, i + 1) - Due(deadlines, i)) as real < gaps[i] + 1.0
    {
      GapIsRounded(gaps, i);
    }
  }

  lemma DueIsElapsed(gaps: seq<real>, deadlines: seq<int>, n: nat)
    requires n <= |deadlines| <= |gaps| && forall i :: 0 <= i < |deadlines| ==> deadlines[i] == Elapsed(gaps, i + 1)
    ensures Due(deadlines, n) == Elapsed(gaps, n)
  {
  }

  lemma GapIsRounded(gaps: seq<real>, i: nat)
    requires i < |gaps|
    ensures gaps[i] - 1.0 < (Elapsed(gaps, i + 1) - Elapsed(gaps, i)) as real < gaps[i] + 1.0
  {
  }

  /** The gaps and the configuration leave no choice. */
  lemma ScheduleIsUnique(gaps: seq<real>, d1: seq<int>, p1: Phases, d2: seq<int>, p2: Phases,
                         warmup: int, samples: nat, cooldown: int)
    requires IsSchedule(gaps, d1, p1, warmup, samples, cooldown)
    requires IsSchedule(gaps, d2, p2, warmup, samples, cooldown)
    ensures d1 == d2 && p1 == p2
  {
  }

  lemma PhaseIsEmptyIff(gaps: seq<real>, from: nat, to: nat, duration: int)
    requires Shortest(gaps, from, to, duration)
    ensures from == to <==> duration <= 0
  {
  }

  /** The schedule is empty exactly if neither warm-up, nor samples, nor cool-down were asked for. */
  lemma EmptyIffNothingAsked(gaps: seq<real>, deadlines: seq<int>, p: Phases, warmup: int, samples: nat, cooldown: int)
    requires IsSchedule(gaps, deadlines, p, warmup, samples, cooldown)
    ensures deadlines == [] <==> warmup <= 0 && samples == 0 && cooldown <= 0
  {
    PhaseIsEmptyIff(gaps, 0, p.pre, warmup);
    PhaseIsEmptyIff(gaps, p.pre + p.measure, |deadlines|, cooldown);
  }

  class Schedule {
    var deadlines: seq<int>
    var pre: nat
    var measure: nat
    var post: nat
    var total: nat

    constructor ()
      ensures deadlines == [] && pre == measure == post == total == 0
    {
      deadlines, pre, measure, post, total := [], 0, 0, 0, 0;
    }

    /** One `accum += d(randgen_)` and `push_back`. */
    method Push(gaps: seq<real>, accum: real, pos: nat) returns (next: real)
      requires pos < |gaps| && |deadlines| == pos && accum == Total(gaps, pos)
      requires forall i :: 0 <= i < pos ==> deadlines[i] == Elapsed(gaps, i + 1)
      modifies `deadlines
      ensures next == Total(gaps, pos + 1) && |deadlines| == pos + 1
      ensures forall i :: 0 <= i < pos + 1 ==> deadlines[i] == Elapsed(gaps, i + 1)
    {
      next := accum + gaps[pos];
      deadlines := deadlines + [Ceil(next)];
    }

    /** The three loops.  They fail to finish only if the gaps run out first. */
    method SetupDeadlines(gaps: seq<real>, warmup: nat, samples: nat, cooldown: nat) returns (finished: bool)
      requires deadlines == []
      modifies this
      ensures finished ==> IsSchedule(gaps, deadlines, Phases(pre, measure, post), warmup, samples, cooldown)
      ensures finished ==> total == |deadlines|
      ensures !finished ==> forall d, p :: !IsSchedule(gaps, d, p, warmup, samples, cooldown)
    {
      var accum, pos := 0.0, 0;
      assert Elapsed(gaps, 0) == 0;
      while Ceil(accum) < warmup
        invariant pos <= |gaps| && |deadlines| == pos && accum == Total(gaps, pos)
        invariant forall i :: 0 <= i < pos ==> deadlines[i] == Elapsed(gaps, i + 1)
        invariant forall k :: 0 <= k < pos ==> Elapsed(gaps, k) - Elapsed(gaps, 0) < warmup
        decreases |gaps| - pos
      {
        if pos == |gaps| {
          return false;
        }
        accum := Push(gaps, accum, pos);
        pos := pos + 1;
      }
      pre := pos;
      ghost var warm := pos;
      assert Shortest(gaps, 0, warm, warmup);
      while pos - pre < samples
        invariant pre == warm <= pos <= |gaps| && pos - pre <= samples
        invariant |deadlines| == pos && accum == Total(gaps, pos)
        invariant forall i :: 0 <= i < pos ==> deadlines[i] == Elapsed(gaps, i + 1)
        decreases |gaps| - pos
      {
        if pos == |gaps| {
          return false;
        }
        accum := Push(gaps, accum, pos);
        pos := pos + 1;
      }
      measure := samples;
      var coolstart := Ceil(accum);
      ghost var start := pos;
      assert coolstart == Elapsed(gaps, start);
      while Ceil(accum) - coolstart < cooldown
        invariant pre == warm && measure == samples && start <= pos <= |gaps|
        invariant |deadlines| == pos && accum == Total(gaps, pos)
        invariant forall i :: 0 <= i < pos ==> deadlines[i] == Elapsed(gaps, i + 1)
        invariant forall k :: start <= k < pos ==> Elapsed(gaps, k) - Elapsed(gaps, start) < cooldown
        decreases |gaps| - pos
      {
        if pos == |gaps| {
          return false;
        }
        accum := Push(gaps, accum, pos);
        pos := pos + 1;
      }
      assert Shortest(gaps, start, pos, cooldown);
      post := pos - pre - measure;
      total := pos;
      return true;
    }
  }
}
