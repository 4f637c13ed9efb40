/** The statistics of a plugin: a truncating rolling average, and peaks. */
module RollingAverage {
  import opened MachineInt

  function Wrap(x: nat): usize {
    if x < MODULUS then x else x % MODULUS
  }

  lemma ScaleMonotone(k: nat, a: nat, b: nat)
    requires a <= b
    ensures k * a <= k * b
  {
  }

  lemma QuotientFacts(x: nat, n: nat)
    requires n > 0
    ensures 0 <= x / n <= x && n * (x / n) <= x < n * (x / n) + n
  {
    var q := x / n;
    assert x == n * q + x % n;
    ScaleMonotone(q, 1, n);
  }

  function Quotient(x: usize, n: usize): (q: usize)
    requires n > 0
    ensures n * q <= x < n * q + n
  {
    QuotientFacts(x, n);
    x / n
  }

  function Times(a: nat, b: nat): nat {
    a * b
  }

  /** The new average after call number `n`, as the 64-bit code computes it. */
  function NextAverage(average: usize, n: usize, duration: usize): usize
    requires n > 0
  {
    if n == 1 then duration else Quotient(WrapAdd(Wrap(Times(average, n - 1)), duration), n)
  }

  /** The average after a run of recorded calls. */
  ghost function AverageOf(ds: seq<usize>): usize
    requires |ds| < MODULUS
  {
    if |ds| == 0 then 0 else NextAverage(AverageOf(ds[..|ds| - 1]), |ds|, ds[|ds| - 1])
  }

  function Last(xs: seq<usize>): usize {
    if |xs| == 0 then 0 else xs[|xs| - 1]
  }

  /** The highest of the reported values, as the updates keep it. */
  function Peak(xs: seq<usize>): usize {
    if |xs| == 0 then 0 else Max(Peak(xs[..|xs| - 1]), xs[|xs| - 1])
  }

  lemma {:induction false} PeakIsLargest(xs: seq<usize>)
    ensures forall i :: 0 <= i < |xs| ==> xs[i] <= Peak(xs)
    ensures |xs| > 0 ==> Peak(xs) in xs
  {
    if |xs| > 0 {
      PeakIsLargest(xs[..|xs| - 1]);
    }
  }

  /** The statistics of a plugin; the ghost fields hold what has been reported since the last reset. */
  class ResourceUsage {
    var memoryBytes: usize
    var peakMemoryBytes: usize
    var cpuMicros: usize
    var peakCpuMicros: usize
    var functionCalls: usize
    var averageCallMicros: usize
    var activeInstances: usize
    var customMetrics: map<string, real>

    ghost var memory: seq<usize>
    ghost var cpu: seq<usize>
    ghost var calls: seq<usize>

    ghost predicate Valid()
      reads this
    {
      && memoryBytes == Last(memory) && peakMemoryBytes == Peak(memory)
      && cpuMicros == Last(cpu) && peakCpuMicros == Peak(cpu)
      && functionCalls == |calls| && averageCallMicros == AverageOf(calls)
    }

    constructor ()
      ensures Valid() && memory == cpu == calls == []
      ensures activeInstances == 0 && customMetrics == map[]
    {
      memoryBytes, peakMemoryBytes, cpuMicros, peakCpuMicros := 0, 0, 0, 0;
      functionCalls, averageCallMicros, activeInstances, customMetrics := 0, 0, 0, map[];
      memory, cpu, calls := [], [], [];
    }

    /** After the increment a wrapped-around zero count would divide by zero. */
    method RecordFunctionCall(duration: usize)
      requires Valid() && functionCalls + 1 < MODULUS
      modifies this`functionCalls, this`averageCallMicros, this`calls
      ensures Valid() && calls == old(calls) + [duration]
    {
      functionCalls := functionCalls + 1;
      if functionCalls == 1 {
        averageCallMicros := duration;
      } else {
        var total := WrapAdd(Wrap(Times(averageCallMicros, functionCalls - 1)), duration);
        averageCallMicros := Quotient(total, functionCalls);
      }
      assert (calls + [duration])[..|calls|] == calls;
      calls := calls + [duration];
    }

    method UpdateMemory(bytes: usize)
      requires Valid()
      modifies this`memoryBytes, this`peakMemoryBytes, this`memory
      ensures Valid() && memory == old(memory) + [bytes]
    {
      memoryBytes := bytes;
      peakMemoryBytes := Max(peakMemoryBytes, bytes);
      assert (memory + [bytes])[..|memory|] == memory;
      memory := memory + [bytes];
    }

    method UpdateCpuTime(micros: usize)
      requires Valid()
      modifies this`cpuMicros, this`peakCpuMicros, this`cpu
      ensures Valid() && cpu == old(cpu) + [micros]
    {
      cpuMicros := micros;
      peakCpuMicros := Max(peakCpuMicros, micros);
      assert (cpu + [micros])[..|cpu|] == cpu;
      cpu := cpu + [micros];
    }

    /** Nothing reported before a reset counts any more. */
    method Reset()
      modifies this
      ensures Valid() && memory == cpu == calls == []
      ensures activeInstances == 0 && customMetrics == map[]
    {
      memoryBytes, peakMemoryBytes, cpuMicros, peakCpuMicros := 0, 0, 0, 0;
      functionCalls, averageCallMicros, activeInstances, customMetrics := 0, 0, 0, map[];
      memory, cpu, calls := [], [], [];
    }
  }

  function Sum(ds: seq<usize>): nat {
    if |ds| == 0 then 0 else Sum(ds[..|ds| - 1]) + ds[|ds| - 1]
  }

  /** With a total below the modulus no intermediate value wraps. */
  lemma NoWrap(average: usize, n: usize, duration: usize, product: nat, sum: nat)
    requires n > 1 && product == Times(average, n - 1) && product <= sum && sum + duration < MODULUS
    ensures NextAverage(average, n, duration) == Quotient(product + duration, n)
  {
  }

  /** When the total does not fit, the intermediate value is taken modulo the word size before the division. */
  lemma WrapsModulo(average: usize, n: usize, duration: usize)
    requires n > 1
    ensures NextAverage(average, n, duration) == (Times(average, n - 1) + duration) % MODULUS / n
  {
    var x := Times(average, n - 1);
    WrapIsModular(Wrap(x), duration);
    ModuloSum(x, duration);
  }

  lemma ModuloSum(x: nat, d: usize)
    ensures (Wrap(x) + d) % MODULUS == (x + d) % MODULUS
  {
    var q := x / MODULUS;
    assert x == MODULUS * q + x % MODULUS;
    assert Wrap(x) == x % MODULUS;
    SameRemainder(q, Wrap(x) + d);
  }

  lemma SameRemainder(q: nat, y: nat)
    ensures (MODULUS * q + y) % MODULUS == y % MODULUS
  {
  }

  /** `loss` is what rounding has lost against the exact total. */
  ghost predicate LossBounded(n: nat, sum: nat, average: nat) {
    0 <= sum - Times(average, n) && 2 * (sum - Times(average, n)) <= n * (n - 1)
  }

  lemma LossStep(n: usize, a: usize, sum: nat, d: usize)
    requires n > 1 && LossBounded(n - 1, sum, a) && sum + d < MODULUS
    ensures LossBounded(n, sum + d, NextAverage(a, n, d))
  {
    var p := Times(a, n - 1);
    NoWrap(a, n, d, p, sum);
    assert Times(NextAverage(a, n, d), n) == n * NextAverage(a, n, d);
  }

  /** The rounding loss of the average after n calls is at most n(n-1)/2, and it never rounds up. */
  lemma {:induction false} AverageError(ds: seq<usize>)
    requires |ds| < MODULUS && Sum(ds) < MODULUS
    ensures LossBounded(|ds|, Sum(ds), AverageOf(ds))
    decreases |ds|
  {
    var n := |ds|;
    if n == 1 {
      assert Sum(ds[..0]) == 0;
    } else if n > 1 {
      AverageError(ds[..n - 1]);
      LossStep(n, AverageOf(ds[..n - 1]), Sum(ds[..n - 1]), ds[n - 1]);
    }
  }

  lemma SumBetween(n: nat, a: nat, d: nat, lo: nat, hi: nat)
    requires n > 1 && lo <= a <= hi && lo <= d <= hi
    ensures n * lo <= Times(a, n - 1) + d <= n * hi
  {
    ScaleMonotone(n - 1, lo, a);
    ScaleMonotone(n - 1, a, hi);
  }

  lemma BetweenStep(n: nat, a: nat, p: nat, d: nat, q: nat, lo: nat, hi: nat)
    requires n > 1 && lo <= a <= hi && lo <= d <= hi && p == Times(a, n - 1)
    requires n * q <= p + d < n * q + n
    ensures lo <= q <= hi
  {
    SumBetween(n, a, d, lo, hi);
    if q < lo {
      ScaleMonotone(n, q + 1, lo);
      assert false;
    }
    if q > hi {
      ScaleMonotone(n, hi + 1, q);
      assert false;
    }
  }

  lemma NextBetween(n: usize, a: usize, sum: nat, d: usize, lo: nat, hi: nat)
    requires n > 1 && LossBounded(n - 1, sum, a) && sum + d < MODULUS
    requires lo <= a <= hi && lo <= d <= hi
    ensures lo <= NextAverage(a, n, d) <= hi
  {
    var p := Times(a, n - 1);
    NoWrap(a, n, d, p, sum);
    BetweenStep(n, a, p, d, NextAverage(a, n, d), lo, hi);
  }

  /** The average lies between any bounds on the recorded durations. */
  lemma {:induction false} AverageBetween(ds: seq<usize>, lo: nat, hi: nat)
    requires 0 < |ds| < MODULUS && Sum(ds) < MODULUS
    requires forall i :: 0 <= i < |ds| ==> lo <= ds[i] <= hi
    ensures lo <= AverageOf(ds) <= hi
    decreases |ds|
  {
    var n := |ds|;
    if n > 1 {
      AverageBetween(ds[..n - 1], lo, hi);
      AverageError(ds[..n - 1]);
      NextBetween(n, AverageOf(ds[..n - 1]), Sum(ds[..n - 1]), ds[n - 1], lo, hi);
    }
  }
}
