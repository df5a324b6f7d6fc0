/**
 The "load more" driver (main.go lines 104-142). The browser is an oracle:
 the tile count read before each trigger, whether the trigger script ran,
 and the count read at each poll after it. A poll whose read fails leaves
 the Go variable at its zero value, so it counts as 0.
 */
module Pagination {
  import opened Options

  const MaxRounds := 20
  const MaxPolls := 20
  /** Milliseconds slept before each poll. */
  const PollIntervalMs := 500

  /** The page as the driver sees it, round by round and poll by poll. */
  datatype Session = Session(
    countBefore: nat -> Option<int>,
    triggerOk: nat -> bool,
    poll: (nat, nat) -> Option<int>)

  /** Why the driver stopped. Only CountReadFailed is reported as an error. */
  datatype Stop = CountReadFailed | TriggerFailed | NoGrowth | BudgetSpent

  /**
   A run: for each round whose count grew, the number of polls it took,
   then the reason the driver stopped in the round after them.
   */
  datatype Run = Run(grown: seq<nat>, stop: Stop)

  function PolledCount(s: Session, round: nat, w: nat): int {
    s.poll(round, w).GetOr(0)
  }

  /** Round `round` read its count, ran the trigger, and first saw growth at poll number n (1-based). */
  predicate GrewAt(s: Session, round: nat, n: nat) {
    && s.countBefore(round).Some?
    && s.triggerOk(round)
    && 1 <= n <= MaxPolls
    && PolledCount(s, round, n - 1) > s.countBefore(round).value
    && forall v: nat :: v < n - 1 ==> PolledCount(s, round, v) <= s.countBefore(round).value
  }

  /** Round `round` is the one where the driver stops, for the given reason. */
  predicate StoppedAt(s: Session, round: nat, stop: Stop) {
    match stop
    case CountReadFailed => round < MaxRounds && s.countBefore(round).None?
    case TriggerFailed => round < MaxRounds && s.countBefore(round).Some? && !s.triggerOk(round)
    case NoGrowth =>
      && round < MaxRounds
      && s.countBefore(round).Some?
      && s.triggerOk(round)
      && forall v: nat :: v < MaxPolls ==> PolledCount(s, round, v) <= s.countBefore(round).value
    case BudgetSpent => round == MaxRounds
  }

  /** The reference description of what the driver does with a session. */
  predicate Explains(s: Session, run: Run) {
    && |run.grown| <= MaxRounds
    && (forall k :: 0 <= k < |run.grown| ==> GrewAt(s, k, run.grown[k]))
    && StoppedAt(s, |run.grown|, run.stop)
  }

  /** Index of the first poll, from w on, whose count exceeds `initial`. */
  function FirstGrowth(s: Session, round: nat, initial: int, w: nat): (r: Option<nat>)
    requires w <= MaxPolls
    ensures r.Some? ==> w <= r.value < MaxPolls && PolledCount(s, round, r.value) > initial
    ensures r.Some? ==> forall v: nat :: w <= v < r.value ==> PolledCount(s, round, v) <= initial
    ensures r.None? ==> forall v: nat :: w <= v < MaxPolls ==> PolledCount(s, round, v) <= initial
    decreases MaxPolls - w
  {
    if w == MaxPolls then None
    else if PolledCount(s, round, w) > initial then Some(w)
    else FirstGrowth(s, round, initial, w + 1)
  }

  /** The driver from round |grown| on, given the polls of the rounds before it. */
  function DriveFrom(s: Session, grown: seq<nat>): (r: Run)
    requires |grown| <= MaxRounds
    requires forall k :: 0 <= k < |grown| ==> GrewAt(s, k, grown[k])
    ensures Explains(s, r)
    ensures |grown| <= |r.grown| && r.grown[..|grown|] == grown
    decreases MaxRounds - |grown|
  {
    var round := |grown|;
    if round == MaxRounds then Run(grown, BudgetSpent)
    else match s.countBefore(round)
      case None => Run(grown, CountReadFailed)
      case Some(initial) =>
        if !s.triggerOk(round) then Run(grown, TriggerFailed)
        else match FirstGrowth(s, round, initial, 0)
          case None => Run(grown, NoGrowth)
          case Some(w) =>
            var r := DriveFrom(s, grown + [w + 1]);
            assert r.grown[..|grown|] == (grown + [w + 1])[..|grown|] by {
              assert r.grown[..|grown|] == r.grown[..|grown| + 1][..|grown|];
            }
            r
  }

  function Drive(s: Session): (r: Run)
    ensures Explains(s, r)
  {
    DriveFrom(s, [])
  }

  /**
   The driver as the source writes it: at most MaxRounds rounds, each reading
   the count, running the trigger and polling up to MaxPolls times. It reports
   an error exactly when a count read before a trigger fails.
   */
  method ClickLoadMoreUntilDone(s: Session) returns (failed: bool, run: Run)
    ensures Explains(s, run)
    ensures failed <==> run.stop == CountReadFailed
  {
    var grown: seq<nat> := [];
    var i: nat := 0;
    while i < MaxRounds
      invariant i <= MaxRounds && |grown| == i
      invariant forall k :: 0 <= k < i ==> GrewAt(s, k, grown[k])
    {
      var initialCount := s.countBefore(i);
      if initialCount.None? {
        return true, Run(grown, CountReadFailed);
      }
      if !s.triggerOk(i) {
        return false, Run(grown, TriggerFailed);
      }
      var initial := initialCount.value;
      var success := false;
      var used: nat := 0;
      var w: nat := 0;
      while w < MaxPolls
        invariant w <= MaxPolls
        invariant !success ==> forall v: nat :: v < w ==> PolledCount(s, i, v) <= initial
        invariant success ==> GrewAt(s, i, used)
      {
        var currentCount := s.poll(i, w).GetOr(0);
        if currentCount > initial {
          success := true;
          used := w + 1;
          break;
        }
        w := w + 1;
      }
      if !success {
        return false, Run(grown, NoGrowth);
      }
      grown := grown + [used];
      i := i + 1;
    }
    return false, Run(grown, BudgetSpent);
  }

  /** A session is explained by exactly one run: the one the driver computes. */
  lemma ExplainsExactlyDrive(s: Session, run: Run)
    ensures Explains(s, run) <==> run == Drive(s)
  {
    if Explains(s, run) {
      ExplainedRunsAgree(s, run, Drive(s));
    }
  }

  /** The first poll that sees growth is determined by the session. */
  lemma GrowthIsUnique(s: Session, round: nat, n: nat, m: nat)
    requires GrewAt(s, round, n) && GrewAt(s, round, m)
    ensures n == m
  {
  }

  /** A round cannot both grow and be the stopping round. */
  lemma GrowthIsNoStop(s: Session, round: nat, n: nat, stop: Stop)
    requires GrewAt(s, round, n) && StoppedAt(s, round, stop)
    ensures stop == BudgetSpent
  {
  }

  lemma ExplainedRunsAgree(s: Session, a: Run, b: Run)
    requires Explains(s, a) && Explains(s, b)
    ensures a == b
  {
    if |a.grown| < |b.grown| {
      GrowthIsNoStop(s, |a.grown|, b.grown[|a.grown|], a.stop);
    } else if |b.grown| < |a.grown| {
      GrowthIsNoStop(s, |b.grown|, a.grown[|b.grown|], b.stop);
    }
    assert |a.grown| == |b.grown|;
    forall k | 0 <= k < |a.grown| ensures a.grown[k] == b.grown[k] {
      GrowthIsUnique(s, k, a.grown[k], b.grown[k]);
    }
    assert a.grown == b.grown;
  }

  function Sum(xs: seq<nat>): nat {
    if |xs| == 0 then 0 else xs[0] + Sum(xs[1..])
  }

  /** Polls performed by a run: those of the grown rounds, and a full round on NoGrowth. */
  function TotalPolls(run: Run): nat {
    Sum(run.grown) + (if run.stop == NoGrowth then MaxPolls else 0)
  }

  /**
   Trigger attempts: one per grown round, one more when the stopping round
   reached its trigger, whether or not the trigger then succeeded.
   */
  function Triggers(run: Run): nat {
    |run.grown| + (if run.stop == NoGrowth || run.stop == TriggerFailed then 1 else 0)
  }

  /** Count reads before a trigger: one per grown round, one more unless the budget ran out. */
  function CountReads(run: Run): nat {
    |run.grown| + (if run.stop == BudgetSpent then 0 else 1)
  }

  lemma {:induction false} SumBound(xs: seq<nat>, bound: nat)
    requires forall k :: 0 <= k < |xs| ==> xs[k] <= bound
    ensures Sum(xs) <= |xs| * bound
  {
    if |xs| > 0 {
      SumBound(xs[1..], bound);
    }
  }

  /**
   However the page behaves, the driver runs at most MaxRounds triggers and
   MaxRounds * MaxPolls polls, so it sleeps at most 200 seconds in polling.
   */
  lemma DriverIsBounded(s: Session)
    ensures Triggers(Drive(s)) <= MaxRounds
    ensures CountReads(Drive(s)) <= MaxRounds
    ensures TotalPolls(Drive(s)) <= MaxRounds * MaxPolls
    ensures TotalPolls(Drive(s)) * PollIntervalMs <= 200_000
  {
    var r := Drive(s);
    SumBound(r.grown, MaxPolls);
  }

  /** A page whose count never grows stops after one trigger and a full round of polls, without error. */
  lemma NeverGrowingPage(s: Session, n: int)
    requires s.countBefore(0) == Some(n) && s.triggerOk(0)
    requires forall v: nat :: v < MaxPolls ==> PolledCount(s, 0, v) <= n
    ensures Drive(s) == Run([], NoGrowth)
  {
    ExplainsExactlyDrive(s, Run([], NoGrowth));
  }

  /** Failed polls read as 0, so they never count as growth over a non-negative count. */
  lemma FailedPollsNeverGrow(s: Session, n: int)
    requires n >= 0 && s.countBefore(0) == Some(n) && s.triggerOk(0)
    requires forall v: nat :: v < MaxPolls ==> s.poll(0, v).None?
    ensures Drive(s) == Run([], NoGrowth)
  {
    NeverGrowingPage(s, n);
  }

  /** A page that always grows at the first poll exhausts the budget of MaxRounds triggers, without error. */
  lemma AlwaysGrowingPage(s: Session)
    requires forall k: nat :: k < MaxRounds ==> s.countBefore(k).Some? && s.triggerOk(k)
    requires forall k: nat :: k < MaxRounds ==> PolledCount(s, k, 0) > s.countBefore(k).value
    ensures Drive(s) == Run(seq(MaxRounds, _ => 1), BudgetSpent)
  {
    ExplainsExactlyDrive(s, Run(seq(MaxRounds, _ => 1), BudgetSpent));
  }

  /** In a run the session explains, every round before the stopping one read its count. */
  lemma GrownRoundReadItsCount(s: Session, r: Run, round: nat)
    requires Explains(s, r)
    ensures round < |r.grown| ==> s.countBefore(round).Some?
  {
    if round < |r.grown| {
      assert GrewAt(s, round, r.grown[round]);
    }
  }

  /** In a run the session explains, the stopping round did not grow. */
  lemma StoppingRoundDidNotGrow(s: Session, r: Run)
    requires Explains(s, r) && r.stop != BudgetSpent
    ensures !Grows(s, |r.grown|)
  {
    if Grows(s, |r.grown|) {
      var n :| GrewAt(s, |r.grown|, n);
      GrowthIsNoStop(s, |r.grown|, n, r.stop);
    }
  }

  /** Round `round` read its count, ran the trigger and saw growth. */
  ghost predicate Grows(s: Session, round: nat) {
    exists n :: GrewAt(s, round, n)
  }

  /** The driver reports an error exactly when a count read before a trigger fails after every earlier round grew. */
  lemma ErrorOnlyOnCountRead(s: Session)
    ensures Drive(s).stop == CountReadFailed <==>
            exists round: nat :: round < MaxRounds && s.countBefore(round).None? &&
              forall k: nat :: k < round ==> Grows(s, k)
  {
    var r := Drive(s);
    if r.stop == CountReadFailed {
      var round := |r.grown|;
      forall k: nat | k < round ensures Grows(s, k) {
        assert GrewAt(s, k, r.grown[k]);
      }
    } else {
      forall round: nat | round < MaxRounds && s.countBefore(round).None?
        ensures exists k: nat :: k < round && !Grows(s, k)
      {
        GrownRoundReadItsCount(s, r, round);
        if |r.grown| < round {
          StoppingRoundDidNotGrow(s, r);
        }
      }
    }
  }
}
