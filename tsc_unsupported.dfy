/** The build for every architecture other than x86-64: no cycle counter is
    read, and all three operations return 0. */
module TscUnsupported {
  import opened Uint64
  import Tsc

  /** The fallback `BenchStart`: the constant 0 on every call. */
  function BenchStart(): (r: U64)
    ensures r == 0
  {
    0
  }

  /** The fallback `BenchEnd`: the constant 0 on every call. */
  function BenchEnd(): (r: U64)
    ensures r == 0
  {
    0
  }

  /** The fallback `TSCOverhead`: the constant 0, with no loop. */
  function TSCOverhead(): (r: U64)
    ensures r == 0
  {
    0
  }

  /** The readings the generic loop would see on this build: every trial's start
      and end come from the fallback `BenchStart` and `BenchEnd`. */
  function FallbackReadings(n: nat): (r: seq<Tsc.Trial>)
    ensures |r| == n
    ensures forall k :: 0 <= k < n ==> r[k].t0 == 0 && r[k].t1 == 0
  {
    seq(n, _ => Tsc.Trial(BenchStart(), BenchEnd()))
  }

  /** The calibration fold of tsc.go, fed the fallback readings, gives the same
      value as the fallback `TSCOverhead`, with no special case for this build. */
  lemma GenericOverheadAgrees()
    ensures Tsc.Overhead(FallbackReadings(Tsc.TRIALS)) == TSCOverhead()
  {
  }

  /** Running the loop of tsc.go itself on the fallback readings returns the
      fallback `TSCOverhead`. This is an agreement check between the two builds,
      not part of the package's API. */
  method GenericLoopAgrees() returns (overhead: U64)
    ensures overhead == TSCOverhead()
  {
    ghost var setAt: int;
    overhead, setAt := Tsc.TSCOverhead(FallbackReadings(Tsc.TRIALS));
    GenericOverheadAgrees();
  }
}
