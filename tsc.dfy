/** The x86-64 build of the package: the overhead calibration loop `TSCOverhead`
    over the cycle-counter readings that `BenchStart` and `BenchEnd` return. */
module Tsc {
  import opened Uint64

  /** The running minimum starts here: 10^18 cycles, larger than any realistic delta. */
  const SENTINEL: U64 := 1_000_000_000_000_000_000

  /** The number of calibration trials the loop runs. */
  const TRIALS: nat := 100_000

  /** One calibration trial: the value `BenchStart` returned (`t0`) and the value
      `BenchEnd` returned right after it (`t1`). */
  datatype Trial = Trial(t0: U64, t1: U64) {
    /** The elapsed cycles of the trial, `t1 - t0` in wrapping uint64 arithmetic. */
    function Delta(): (d: U64)
      ensures (t0 + d) % MODULUS == t1
    {
      WrapSub(t1, t0)
    }
  }

  /** The loop body: the running minimum is replaced by the trial's delta only
      when that delta is strictly smaller. */
  function Step(overhead: U64, t: Trial): (r: U64)
    ensures r <= overhead && r <= t.Delta()
    ensures r == overhead || r == t.Delta()
    ensures r < overhead <==> t.Delta() < overhead
  {
    if t.Delta() < overhead then t.Delta() else overhead
  }

  /** The min-fold of the trials' deltas seeded with the sentinel: the value the
      loop holds in `overhead` after running over `trials` in order. Its result is
      at most the sentinel and at most every delta (OverheadWitnessed adds that it
      is one of them). */
  function Overhead(trials: seq<Trial>): (r: U64)
    ensures r <= SENTINEL
    ensures forall k :: 0 <= k < |trials| ==> r <= trials[k].Delta()
    decreases |trials|
  {
    if trials == [] then SENTINEL
    else
      var prefix := trials[..|trials| - 1];
      var m := Overhead(prefix);
      assert forall k :: 0 <= k < |prefix| ==> prefix[k] == trials[k];
      Step(m, trials[|trials| - 1])
  }

  /** The overhead is never made up: it is the sentinel or the delta of some trial. */
  lemma {:induction false} OverheadWitnessed(trials: seq<Trial>)
    ensures Overhead(trials) == SENTINEL || exists k :: 0 <= k < |trials| && Overhead(trials) == trials[k].Delta()
    decreases |trials|
  {
    if trials != [] {
      var n := |trials| - 1;
      var prefix := trials[..n];
      OverheadWitnessed(prefix);
      if Overhead(trials) != trials[n].Delta() && Overhead(trials) != SENTINEL {
        var k :| 0 <= k < n && Overhead(prefix) == prefix[k].Delta();
        assert prefix[k] == trials[k];
      }
    }
  }

  /** Running one more trial applies the loop body to the minimum so far. */
  lemma OverheadSnoc(trials: seq<Trial>, t: Trial)
    ensures Overhead(trials + [t]) == Step(Overhead(trials), t)
  {
  }

  /** The running minimum never increases: after more trials it is at most what
      it was after fewer. */
  lemma {:induction false} OverheadNonIncreasing(trials: seq<Trial>, i: nat, j: nat)
    requires i <= j <= |trials|
    ensures Overhead(trials[..j]) <= Overhead(trials[..i])
    decreases j - i
  {
    if i < j {
      OverheadNonIncreasing(trials, i, j - 1);
      var done := trials[..j];
      assert done[..j - 1] == trials[..j - 1];
    }
  }

  /** `Overhead`'s contract and OverheadWitnessed pin its value down: any value that
      is at most the sentinel and every delta, and is the sentinel or one of the
      deltas, is the overhead. So the fold computes min(10^18, every delta). */
  lemma OverheadCharacterized(trials: seq<Trial>, m: U64)
    requires m <= SENTINEL
    requires forall k :: 0 <= k < |trials| ==> m <= trials[k].Delta()
    requires m == SENTINEL || exists k :: 0 <= k < |trials| && m == trials[k].Delta()
    ensures m == Overhead(trials)
  {
    OverheadWitnessed(trials);
  }

  /** The overhead is zero exactly when some trial read the same counter value at
      its start and at its end. */
  lemma OverheadZeroIff(trials: seq<Trial>)
    ensures Overhead(trials) == 0 <==> exists k :: 0 <= k < |trials| && trials[k].t0 == trials[k].t1
  {
  }

  /** What `TSCOverhead` knows after its first `i` trials: `overhead` is the fold
      of those trials, and `setAt` is the trial whose delta was last stored (-1 if
      none), strictly below the delta of every earlier trial. */
  ghost predicate LoopInvariant(readings: seq<Trial>, i: nat, overhead: U64, setAt: int)
  {
    && i <= |readings|
    && overhead == Overhead(readings[..i])
    && -1 <= setAt < i
    && (setAt == -1 ==> overhead == SENTINEL)
    && (0 <= setAt ==> overhead == readings[setAt].Delta() < SENTINEL)
    && (0 <= setAt ==> forall k :: 0 <= k < setAt ==> overhead < readings[k].Delta())
  }

  /** One iteration of the loop body keeps the loop invariant: the minimum moves to
      the trial's delta, and `setAt` to the trial, only on a strict decrease. */
  lemma LoopStep(readings: seq<Trial>, i: nat, overhead: U64, setAt: int)
    requires i < |readings|
    requires LoopInvariant(readings, i, overhead, setAt)
    ensures LoopInvariant(readings, i + 1, Step(overhead, readings[i]),
                          if readings[i].Delta() < overhead then i else setAt)
  {
    var prefix, t := readings[..i], readings[i];
    assert readings[..i + 1] == prefix + [t];
    OverheadSnoc(prefix, t);
    if t.Delta() < overhead {
      forall k | 0 <= k < i
        ensures t.Delta() < readings[k].Delta()
      {
        assert prefix[k] == readings[k];
      }
    }
  }

  /** `TSCOverhead` of tsc.go. The `i`-th pair of `readings` stands for the values
      `BenchStart` and `BenchEnd` return in trial `i`; the loop runs exactly
      `TRIALS` of them. The ghost result `setAt` is the trial whose delta the loop
      last stored in `overhead` (-1 if none): because the comparison is strict,
      it is the first trial that attains the minimum. */
  method TSCOverhead(readings: seq<Trial>) returns (overhead: U64, ghost setAt: int)
    requires |readings| == TRIALS
    ensures overhead == Overhead(readings)
    ensures overhead <= SENTINEL
    ensures forall k :: 0 <= k < TRIALS ==> overhead <= readings[k].Delta()
    ensures -1 <= setAt < TRIALS
    ensures setAt == -1 ==> overhead == SENTINEL && forall k :: 0 <= k < TRIALS ==> SENTINEL <= readings[k].Delta()
    ensures 0 <= setAt ==> overhead == readings[setAt].Delta() < SENTINEL
    ensures 0 <= setAt ==> forall k :: 0 <= k < setAt ==> overhead < readings[k].Delta()
  {
    overhead := SENTINEL;
    setAt := -1;
    for i := 0 to TRIALS
      invariant LoopInvariant(readings, i, overhead, setAt)
    {
      var t0 := readings[i].t0;
      var t1 := readings[i].t1;
      LoopStep(readings, i, overhead, setAt);
      if WrapSub(t1, t0) < overhead {
        overhead := WrapSub(t1, t0);
        setAt := i;
      }
    }
    assert readings[..TRIALS] == readings;
  }
}
