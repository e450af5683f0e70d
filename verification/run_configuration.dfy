/** `RunConfiguration`: the parameters of a run, the seed derived from them,
    the table of task durations drawn from that seed, and the head request a
    run starts from.

    The Core and the Common library define the same constructor, fields and
    presets; they differ in the checksum `GetTaskDurationMs` indexes the
    table with.  Two parts of the constructor are floating point and stay
    abstract: the minimum and maximum durations derived from the average
    (`(int)(AvgDurationMs / 3)` and `(int)(AvgDurationMs * 30)`), and the
    Beta-distributed samples a seeded `Random` yields.  Both come in as
    `FloatingPoint`. */
module RunConfiguration {
  import opened Wrappers
  import opened Numerics
  import opened CoreRequests
  import CryptoHashCode
  import StringExt

  /** The size of the duration table. */
  const NbSamples: int := 100000

  /** The sentinel that asks for a duration bound derived from the average. */
  const Derived: int := -1

  /** The floating-point parts of the constructor: the bounds derived from
      the average for given ticks and task count, and the `i`-th duration
      drawn by the generator seeded with a given seed. */
  datatype FloatingPoint = FloatingPoint(derivedBounds: (int, int) -> (int, int), sample: (int, nat) -> int)

  datatype Config = Config(
    ticks: int,             // TotalCalculationTime, in 100 ns ticks
    totalNbSubTasks: int,
    data: int,
    memory: int,
    subTasksLevels: int,
    minDurationMs: int,
    maxDurationMs: int,
    seed: int,
    durationSamples: seq<int>)
  {
    /** What every configuration the constructor builds satisfies. */
    predicate Valid()
    {
      && InRange(ticks, totalNbSubTasks, data, memory, subTasksLevels)
      && AssertsAsWritten(ticks, totalNbSubTasks, data, memory, subTasksLevels)
      && IsInt32(seed)
      && |durationSamples| == NbSamples
    }

    /** What the head request needs of the configuration: with levels, the
        `ComputeRequest` it builds asserts more than one subrequest. */
    predicate HasHeadRequest()
    {
      subTasksLevels == 0 || totalNbSubTasks > 1
    }
  }

  /** The C# types of the arguments: a `TimeSpan` holds a `long` of ticks,
      the rest are `int`. */
  predicate InRange(ticks: int, totalNbSubTasks: int, data: int, memory: int, subTasksLevels: int)
  {
    IsInt64(ticks) && IsInt32(totalNbSubTasks) && IsInt32(data) && IsInt32(memory) && IsInt32(subTasksLevels)
  }

  /** The constructor's `Debug.Assert`s, as written.  `TotalMilliseconds`
      is the tick count divided by 10000, positive exactly when the tick
      count is. */
  predicate AssertsAsWritten(ticks: int, totalNbSubTasks: int, data: int, memory: int, subTasksLevels: int)
  {
    && ticks > 0
    && (subTasksLevels == 0 || totalNbSubTasks > 0)
    && data > 0
    && memory > 0
    && subTasksLevels >= 0
  }

  /** The assertions the constructor evidently intends: the written ones
      with the task count the head request needs, since a `ComputeRequest`
      asserts more than one subrequest. */
  predicate Accepts(ticks: int, totalNbSubTasks: int, data: int, memory: int, subTasksLevels: int)
  {
    && AssertsAsWritten(ticks, totalNbSubTasks, data, memory, subTasksLevels)
    && (subTasksLevels == 0 || totalNbSubTasks > 1)
  }

  /** `acc + t0 + t1 + ...` evaluated left to right in `int`: each term and
      each partial sum wraps around. */
  function WrapFold(acc: int, terms: seq<int>): (s: int)
    requires IsInt32(acc)
    ensures IsInt32(s)
    decreases |terms|
  {
    if |terms| == 0 then acc else WrapFold(Wrap(acc + Wrap(terms[0])), terms[1..])
  }

  function Sum(terms: seq<int>): int
    decreases |terms|
  {
    if |terms| == 0 then 0 else terms[0] + Sum(terms[1..])
  }

  /** Wrapping both operands first does not change the wrapped sum. */
  lemma WrapSum(a: int, b: int)
    ensures Wrap(Wrap(a) + Wrap(b)) == Wrap(a + b)
  {
    WrapAdd(a, Wrap(b));
    WrapAdd(b, a);
  }

  /** The intermediate wrap-arounds do not matter: the fold is the exact sum
      reduced once to 32 bits. */
  lemma {:induction false} WrapFoldSum(acc: int, terms: seq<int>)
    ensures WrapFold(Wrap(acc), terms) == Wrap(acc + Sum(terms))
    decreases |terms|
  {
    if |terms| > 0 {
      WrapSum(acc, terms[0]);
      WrapFoldSum(acc + terms[0], terms[1..]);
    }
  }

  /** The weighted terms of the seed after the ticks; `8 * NbSamples` is a
      constant. */
  function SeedTerms(totalNbSubTasks: int, data: int, memory: int, subTasksLevels: int,
                     minDurationMs: int, maxDurationMs: int): seq<int>
  {
    [2 * totalNbSubTasks, 3 * data, 4 * memory, 5 * subTasksLevels, 6 * minDurationMs, 7 * maxDurationMs, 8 * NbSamples]
  }

  /** The seed expression evaluated the way C# does: `(int)` keeps the low
      32 bits of the ticks, and every `int` product and sum wraps around. */
  function SeedAsEvaluated(ticks: int, totalNbSubTasks: int, data: int, memory: int, subTasksLevels: int,
                           minDurationMs: int, maxDurationMs: int): (s: int)
    ensures IsInt32(s)
  {
    WrapFold(Wrap(ticks), SeedTerms(totalNbSubTasks, data, memory, subTasksLevels, minDurationMs, maxDurationMs))
  }

  /** The seed is the weighted sum of the fields, reduced once to 32 bits. */
  lemma SeedIsWeightedSum(ticks: int, totalNbSubTasks: int, data: int, memory: int, subTasksLevels: int,
                          minDurationMs: int, maxDurationMs: int)
    ensures SeedAsEvaluated(ticks, totalNbSubTasks, data, memory, subTasksLevels, minDurationMs, maxDurationMs)
         == Wrap(ticks + 2 * totalNbSubTasks + 3 * data + 4 * memory + 5 * subTasksLevels
                 + 6 * minDurationMs + 7 * maxDurationMs + 8 * NbSamples)
  {
    var terms := SeedTerms(totalNbSubTasks, data, memory, subTasksLevels, minDurationMs, maxDurationMs);
    WrapFoldSum(ticks, terms);
    assert Sum(terms[6..]) == 8 * NbSamples;
    assert Sum(terms[5..]) == terms[5] + Sum(terms[6..]);
    assert Sum(terms[4..]) == terms[4] + Sum(terms[5..]);
    assert Sum(terms[3..]) == terms[3] + Sum(terms[4..]);
    assert Sum(terms[2..]) == terms[2] + Sum(terms[3..]);
    assert Sum(terms[1..]) == terms[1] + Sum(terms[2..]);
    assert Sum(terms) == terms[0] + Sum(terms[1..]);
  }

  /** The constructor.  A bound of -1 is replaced by the derived one, any
      other value is kept; the seed is computed from the fields; the table
      holds the first `NbSamples` draws of the generator seeded with it. */
  function New(ticks: int, totalNbSubTasks: int, data: int, memory: int, subTasksLevels: int,
               minDurationMs: int, maxDurationMs: int, fp: FloatingPoint): (c: Config)
    requires InRange(ticks, totalNbSubTasks, data, memory, subTasksLevels)
    requires AssertsAsWritten(ticks, totalNbSubTasks, data, memory, subTasksLevels)
    ensures c.Valid()
    ensures c.ticks == ticks && c.totalNbSubTasks == totalNbSubTasks && c.data == data
    ensures c.memory == memory && c.subTasksLevels == subTasksLevels
    ensures minDurationMs != Derived ==> c.minDurationMs == minDurationMs
    ensures maxDurationMs != Derived ==> c.maxDurationMs == maxDurationMs
    ensures minDurationMs == Derived ==> c.minDurationMs == fp.derivedBounds(ticks, totalNbSubTasks).0
    ensures maxDurationMs == Derived ==> c.maxDurationMs == fp.derivedBounds(ticks, totalNbSubTasks).1
    ensures forall i :: 0 <= i < NbSamples ==> c.durationSamples[i] == fp.sample(c.seed, i)
  {
    var bounds := fp.derivedBounds(ticks, totalNbSubTasks);
    var minMs := if minDurationMs == Derived then bounds.0 else minDurationMs;
    var maxMs := if maxDurationMs == Derived then bounds.1 else maxDurationMs;
    var seed := SeedAsEvaluated(ticks, totalNbSubTasks, data, memory, subTasksLevels, minMs, maxMs);
    Config(ticks, totalNbSubTasks, data, memory, subTasksLevels, minMs, maxMs, seed,
           seq(NbSamples, i requires 0 <= i < NbSamples => fp.sample(seed, i)))
  }

  /** The seed a constructed configuration carries is the weighted sum of
      its own fields, reduced to 32 bits. */
  lemma NewSeed(ticks: int, totalNbSubTasks: int, data: int, memory: int, subTasksLevels: int,
                minDurationMs: int, maxDurationMs: int, fp: FloatingPoint)
    requires InRange(ticks, totalNbSubTasks, data, memory, subTasksLevels)
    requires AssertsAsWritten(ticks, totalNbSubTasks, data, memory, subTasksLevels)
    ensures var c := New(ticks, totalNbSubTasks, data, memory, subTasksLevels, minDurationMs, maxDurationMs, fp);
            c.seed == Wrap(c.ticks + 2 * c.totalNbSubTasks + 3 * c.data + 4 * c.memory + 5 * c.subTasksLevels
                           + 6 * c.minDurationMs + 7 * c.maxDurationMs + 8 * NbSamples)
  {
    var c := New(ticks, totalNbSubTasks, data, memory, subTasksLevels, minDurationMs, maxDurationMs, fp);
    SeedIsWeightedSum(ticks, totalNbSubTasks, data, memory, subTasksLevels, c.minDurationMs, c.maxDurationMs);
  }

  // ---------------------------------------------------------------------
  // Task durations

  /** The table index of a task in the Core: the checksum is a `uint`, so
      `hash % NbSamples` is computed on `long` and is never negative. */
  function SampleIndex(taskId: string): (i: int)
    ensures 0 <= i < NbSamples
  {
    TruncRem(CryptoHashCode.HashValue(taskId), NbSamples)
  }

  /** `GetTaskDurationMs` in the Core: always a drawn sample. */
  function GetTaskDurationMs(c: Config, taskId: string): (d: int)
    requires c.Valid()
    ensures d in c.durationSamples
  {
    c.durationSamples[SampleIndex(taskId)]
  }

  /** The duration of a task is the draw numbered by its checksum modulo the
      table size. */
  lemma TaskDurationIsDraw(ticks: int, totalNbSubTasks: int, data: int, memory: int, subTasksLevels: int,
                           minDurationMs: int, maxDurationMs: int, fp: FloatingPoint, taskId: string)
    requires InRange(ticks, totalNbSubTasks, data, memory, subTasksLevels)
    requires AssertsAsWritten(ticks, totalNbSubTasks, data, memory, subTasksLevels)
    ensures var c := New(ticks, totalNbSubTasks, data, memory, subTasksLevels, minDurationMs, maxDurationMs, fp);
            GetTaskDurationMs(c, taskId) == fp.sample(c.seed, CryptoHashCode.HashValue(taskId) % NbSamples)
  {
    TruncRemEuclidean(CryptoHashCode.HashValue(taskId), NbSamples);
  }

  /** `GetTaskDurationMs` in the Common library, as written: the checksum is
      a signed `int`, so `hash % NbSamples` is negative for a negative hash
      that `NbSamples` does not divide, and indexing the array throws. */
  function CommonTaskDurationAsWritten(c: Config, taskId: string): (r: Result<int>)
    requires c.Valid()
    ensures r.Err? <==> TruncRem(StringExt.HashString(taskId), NbSamples) < 0
    ensures r.Err? ==> r.error == IndexOutOfRange
    ensures r.Ok? ==> r.value in c.durationSamples
  {
    var index := TruncRem(StringExt.HashString(taskId), NbSamples);
    if index < 0 then Err(IndexOutOfRange) else Ok(c.durationSamples[index])
  }

  /** The index the Common library evidently means: the checksum's 32 bits
      read as unsigned, as the Core's checksum is. */
  function CommonSampleIndex(taskId: string): (i: int)
    ensures 0 <= i < NbSamples
  {
    var hash := StringExt.HashString(taskId);
    (if hash < 0 then hash + TwoTo32 else hash) % NbSamples
  }

  /** `GetTaskDurationMs` in the Common library, corrected: always a drawn
      sample. */
  function CommonTaskDurationMs(c: Config, taskId: string): (d: int)
    requires c.Valid()
    ensures d in c.durationSamples
  {
    c.durationSamples[CommonSampleIndex(taskId)]
  }

  /** Where the written code does not throw it agrees with the corrected
      one; it throws exactly for the negative hashes `NbSamples` does not
      divide. */
  lemma CommonTaskDurationAgrees(c: Config, taskId: string)
    requires c.Valid()
    ensures StringExt.HashString(taskId) >= 0 ==> CommonTaskDurationAsWritten(c, taskId) == Ok(CommonTaskDurationMs(c, taskId))
    ensures CommonTaskDurationAsWritten(c, taskId).Err?
        <==> StringExt.HashString(taskId) < 0 && StringExt.HashString(taskId) % NbSamples != 0
  {
    TruncRemEuclidean(StringExt.HashString(taskId), NbSamples);
  }

  /** The id "b" hashes to -101728655, so the written code indexes the table
      at -28655 and throws; read as unsigned the hash is 4193238641, whose
      index is 38641. */
  lemma CommonTaskDurationOfB(c: Config)
    requires c.Valid()
    ensures TruncRem(StringExt.HashString("b"), NbSamples) == -28655
    ensures CommonTaskDurationAsWritten(c, "b") == Err(IndexOutOfRange)
    ensures CommonSampleIndex("b") == 38641
  {
    var h := StringExt.HashString("b");
    StringExt.HashOfB();
    TruncRemOfNegative(h);
  }

  lemma TruncRemOfNegative(h: int)
    requires h == -101728655
    ensures TruncRem(h, NbSamples) == -28655
    ensures (h + TwoTo32) % NbSamples == 38641
  {
  }

  // ---------------------------------------------------------------------
  // The head request

  /** `DefaultHeadRequest`: a final request when there are no levels,
      otherwise a compute request with the levels as depth and the task
      count as number of subrequests. */
  function DefaultHeadRequest(c: Config): (r: Request)
    requires c.Valid() && c.HasHeadRequest()
    ensures r.Valid() && r.id == HeadId
    ensures r.Final? <==> c.subTasksLevels == 0
    ensures !r.Final? ==> r == Compute(HeadId, c.subTasksLevels, c.totalNbSubTasks)
  {
    if c.subTasksLevels == 0 then HeadFinal() else HeadCompute(c.subTasksLevels, c.totalNbSubTasks)
  }

  /** The written assertions admit one level with a single task, for which
      the head request `ComputeRequest(1, 1)` breaks its own assertion that
      there is more than one subrequest. */
  lemma HeadRequestGap(fp: FloatingPoint)
    ensures AssertsAsWritten(10_000, 1, 1, 1, 1)
    ensures !Accepts(10_000, 1, 1, 1, 1)
    ensures var c := New(10_000, 1, 1, 1, 1, Derived, Derived, fp);
            c.Valid() && !c.HasHeadRequest()
    ensures !Compute(HeadId, 1, 1).Valid()
  {
  }

  /** The corrected assertions are exactly the written ones plus what the
      head request needs: every configuration they admit has a head request. */
  lemma AcceptsHasHeadRequest(ticks: int, totalNbSubTasks: int, data: int, memory: int, subTasksLevels: int,
                              minDurationMs: int, maxDurationMs: int, fp: FloatingPoint)
    requires InRange(ticks, totalNbSubTasks, data, memory, subTasksLevels)
    requires AssertsAsWritten(ticks, totalNbSubTasks, data, memory, subTasksLevels)
    ensures var c := New(ticks, totalNbSubTasks, data, memory, subTasksLevels, minDurationMs, maxDurationMs, fp);
            c.HasHeadRequest() <==> Accepts(ticks, totalNbSubTasks, data, memory, subTasksLevels)
  {
  }

  // ---------------------------------------------------------------------
  // Presets

  const TicksPerMillisecond: int := 10_000
  const TicksPerMinute: int := 600_000_000
  const TicksPerHour: int := 36_000_000_000

  /** `Minimal`: 100 ms, no subtask, no level. */
  function Minimal(fp: FloatingPoint): (c: Config)
    ensures c.Valid() && c.HasHeadRequest() && c.ticks == 100 * TicksPerMillisecond
    ensures c.totalNbSubTasks == 0 && c.data == 1 && c.memory == 1 && c.subTasksLevels == 0
    ensures DefaultHeadRequest(c) == Final(HeadId)
  {
    New(100 * TicksPerMillisecond, 0, 1, 1, 0, Derived, Derived, fp)
  }

  /** `XSmall`: 2 minutes, 10 subtasks, 1 level. */
  function XSmall(fp: FloatingPoint): (c: Config)
    ensures c.Valid() && c.HasHeadRequest() && c.ticks == 2 * TicksPerMinute
    ensures c.totalNbSubTasks == 10 && c.data == 1 && c.memory == 1 && c.subTasksLevels == 1
    ensures DefaultHeadRequest(c) == Compute(HeadId, 1, 10)
  {
    New(2 * TicksPerMinute, 10, 1, 1, 1, Derived, Derived, fp)
  }

  /** `Small`: 10 minutes, 100 subtasks, 2 levels. */
  function Small(fp: FloatingPoint): (c: Config)
    ensures c.Valid() && c.HasHeadRequest() && c.ticks == 10 * TicksPerMinute
    ensures c.totalNbSubTasks == 100 && c.data == 1 && c.memory == 1 && c.subTasksLevels == 2
    ensures DefaultHeadRequest(c) == Compute(HeadId, 2, 100)
  {
    New(10 * TicksPerMinute, 100, 1, 1, 2, Derived, Derived, fp)
  }

  /** `Medium`: 1 hour, 10000 subtasks, 3 levels. */
  function Medium(fp: FloatingPoint): (c: Config)
    ensures c.Valid() && c.HasHeadRequest() && c.ticks == TicksPerHour
    ensures c.totalNbSubTasks == 10000 && c.data == 1 && c.memory == 1 && c.subTasksLevels == 3
    ensures DefaultHeadRequest(c) == Compute(HeadId, 3, 10000)
  {
    New(TicksPerHour, 10000, 1, 1, 3, Derived, Derived, fp)
  }

  /** `Large`: 36 hours, 4 million subtasks, 5 levels. */
  function Large(fp: FloatingPoint): (c: Config)
    ensures c.Valid() && c.HasHeadRequest() && c.ticks == 36 * TicksPerHour
    ensures c.totalNbSubTasks == 4000000 && c.data == 1 && c.memory == 2 && c.subTasksLevels == 5
    ensures DefaultHeadRequest(c) == Compute(HeadId, 5, 4000000)
  {
    New(36 * TicksPerHour, 4000000, 1, 2, 5, Derived, Derived, fp)
  }

  /** `XLarge`: 24000 hours, 6 million subtasks, 7 levels. */
  function XLarge(fp: FloatingPoint): (c: Config)
    ensures c.Valid() && c.HasHeadRequest() && c.ticks == 24000 * TicksPerHour
    ensures c.totalNbSubTasks == 6000000 && c.data == 1 && c.memory == 3 && c.subTasksLevels == 7
    ensures DefaultHeadRequest(c) == Compute(HeadId, 7, 6000000)
  {
    New(24000 * TicksPerHour, 6000000, 1, 3, 7, Derived, Derived, fp)
  }
}
