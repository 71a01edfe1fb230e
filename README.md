# gotsc: cycle-counter overhead calibration in Dafny

gotsc is a Go package for benchmarking on x86-64 with the timestamp cycle counter.
`BenchStart` and `BenchEnd` read the counter. `TSCOverhead` estimates what one
`BenchStart`/`BenchEnd` pair costs. It runs 100000 back-to-back pairs and returns
the smaller of the sentinel 10^18 and every delta `t1 - t0`. The delta is computed
in wrapping `uint64` arithmetic. On every other architecture, all three functions
return 0.

This project models both builds:

- `uint64.dfy` (module `Uint64`): Go's `uint64` as the subset type `U64`, and Go's
  wrapping subtraction as `WrapSub`.
- `tsc.dfy` (module `Tsc`): the x86-64 build.
  - `Trial` is one start/end reading pair, and `Trial.Delta` is its wrapped delta.
  - `Step` is the loop body.
  - `Overhead` is the specification: a min-fold of the deltas, seeded with the
    sentinel.
  - `TSCOverhead` is the imperative loop. It is proved equal to `Overhead`, with
    its invariant kept by `LoopStep`.
- `tsc_unsupported.dfy` (module `TscUnsupported`): the fallback build, and proofs
  that the generic loop, fed the fallback's readings, returns the fallback's 0.

The hardware reads have no Go body; they are assembly. `TSCOverhead` therefore takes
as input the counter values that the 100000 `BenchStart`/`BenchEnd` calls return, one
`Trial` per iteration. Its `requires |readings| == TRIALS` says only that one pair is
supplied per trial. The ghost result `setAt` records which trial last stored its delta
in `overhead`. It makes the strict `<` comparison observable: on a tie the value would
be the same either way, but with a strict comparison the stored trial is the first
one that reaches the minimum.

`TSCOverhead` returns min(10^18, every delta) (`Tsc.OverheadWitnessed`,
`Tsc.OverheadCharacterized`). If every delta is at least 10^18, it returns the
sentinel, which need not be the delta of any trial: it is one only when some delta
is exactly 10^18.

## Model

| member | source | states |
|---|---|---|
| `Uint64.WrapSub` | tsc.go:28-29 | `t1 - t0` on uint64 is the plain difference when `t0 <= t1`. Otherwise it wraps to `2^64 - (t0 - t1)` and is never negative. Adding it back to `t0` gives `t1` modulo 2^64. |
| `Uint64.WrapSubUnique` | tsc.go:28-29 | The wrapped difference is the only uint64 that, added to `t0` modulo 2^64, gives `t1`. So it is the inverse of wrapping addition. |
| `Uint64.WrapSubZeroIff` | tsc.go:28-29 | The wrapped delta is 0 exactly when the start and end readings are equal. |
| `Tsc.Trial.Delta` | tsc.go:28-29 | A trial's delta is Go's `t1 - t0` on uint64: adding it to the start reading gives the end reading modulo 2^64. |
| `Tsc.Step` | tsc.go:28-30 | One trial never raises the minimum. The result is at most the old minimum and at most the delta, and it is one of the two. The minimum decreases exactly when the delta is strictly smaller. A delta equal to the minimum leaves it unchanged. |
| `Tsc.Overhead` | tsc.go:22-33 | The min-fold seeded with the sentinel never exceeds 10^18. It is at most the wrapped delta of every trial. |
| `Tsc.OverheadWitnessed` | tsc.go:23-30 | The fold's result is either the sentinel 10^18 or the wrapped delta of some trial. |
| `Tsc.OverheadCharacterized` | tsc.go:21-34 | A value that is at most the sentinel, at most every delta, and equal to the sentinel or to some delta is the fold's result. So the result is exactly min(10^18, all deltas). |
| `Tsc.OverheadSnoc` | tsc.go:25-31 | Folding one more trial applies the loop body to the minimum of the earlier trials. |
| `Tsc.OverheadNonIncreasing` | tsc.go:25-31 | The running minimum never increases: after `j` trials it is at most its value after `i <= j` trials. |
| `Tsc.OverheadZeroIff` | tsc.go:26-30 | The overhead is 0 exactly when some trial read the same counter value at its start and its end. All-zero readings therefore give 0. |
| `Tsc.LoopStep` | tsc.go:26-30 | One iteration keeps the loop invariant. After it, `overhead` is the fold of one more trial. The stored trial moves to the current one only on a strict decrease, and only then is it strictly below every earlier delta. |
| `Tsc.TSCOverhead` | tsc.go:21-34 | The loop runs exactly 100000 trials and returns the min-fold of their wrapped deltas. That value is at most 10^18 and at most every delta. It is either the sentinel, with every delta at least 10^18, or the delta of a trial that is strictly below every earlier trial's delta: strict `<` keeps the first trial that reaches the minimum. |
| `TscUnsupported.BenchStart` | tsc_unsupported.go:18-20 | The fallback start read returns 0 on every call. |
| `TscUnsupported.BenchEnd` | tsc_unsupported.go:26-28 | The fallback end read returns 0 on every call. |
| `TscUnsupported.TSCOverhead` | tsc_unsupported.go:34-36 | The fallback overhead is exactly 0, with no loop and no state. |
| `TscUnsupported.FallbackReadings` | tsc_unsupported.go:18-28 | On the fallback build, every trial's start and end readings are 0. |
| `TscUnsupported.GenericOverheadAgrees` | tsc_unsupported.go:12-36 | The calibration fold of the x86-64 build, fed 100000 fallback readings, equals the fallback `TSCOverhead`, 0. |
| `TscUnsupported.GenericLoopAgrees` | tsc_unsupported.go:12-36 | Running the x86-64 loop itself on the fallback readings returns the fallback `TSCOverhead`. |

## Left out

- The real `BenchStart` and `BenchEnd` (tsc.go:9, tsc.go:15) are x86-64 assembly (`rdtsc` with fences), and that assembly is not part of this model. Their values are inputs. Their instruction-ordering guarantees are a processor pipeline contract that cannot be expressed here.
- Counter monotonicity and cross-core synchronisation are hardware properties. The model makes no assumption about them, so `t1 < t0` is allowed, and its delta wraps.
- The tests' numeric windows (overhead in 10..100, a post-subtraction delta of at most 200; tsc_test.go:21, tsc_test.go:31-34) measure real hardware. The code does not promise them.
- Build-tag selection between the two builds (tsc_unsupported.go:5) is a build-system concern. The two builds are two separate modules.
- The benchmarks `BenchmarkTime`, `BenchmarkBenchStart` and `BenchmarkBenchEnd` (tsc_test.go:40-56) are timing harnesses with no statable behaviour.
- Tsc.TSCOverhead: the loop reads its 100000 readings from a supplied sequence, not from successive hardware calls. The strict-comparison property is stated through the ghost result `setAt`, because the returned value alone cannot show it.
