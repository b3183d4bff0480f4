/**
 The utilization figures of one worker group in src/daemon/global_statistics.c, collected over the workers of the
 group between two resets. Times are whole microseconds; percentages and metrics are reals, so rounding is not
 modelled. A worker observed for no time at all has a percentage that is not a number, which compares as false.
 */
module WorkerStatistics {

  const MAX_JOB_TYPES := 50
  const MIN_PERCENT_DEFAULT := 10000.0

  /** A custom metric of a job; `NotANumber` also stands for the infinities. */
  datatype Metric = NotANumber | Number(value: real)

  datatype Job = Job(jobsStarted: nat, busyTime: nat, metric: Metric)

  /** One call of `worker_utilization_charts_callback`; `jobs` runs up to the largest job id of the worker. */
  datatype Sample = Sample(utilization: nat, duration: nat, jobsStarted: nat, running: nat, jobs: seq<Job>)

  function Busy(s: Sample): nat {
    if s.utilization > s.duration then s.duration else s.utilization
  }

  function Percent(s: Sample): real
    requires s.duration > 0
  {
    Busy(s) as real * 100.0 / s.duration as real
  }

  // ---- what the figures mean -------------------------------------------------------------------------

  function TotalBusy(samples: seq<Sample>): nat {
    if samples == [] then 0 else TotalBusy(samples[..|samples| - 1]) + Busy(samples[|samples| - 1])
  }

  function TotalDuration(samples: seq<Sample>): nat {
    if samples == [] then 0 else TotalDuration(samples[..|samples| - 1]) + samples[|samples| - 1].duration
  }

  function TotalJobs(samples: seq<Sample>): nat {
    if samples == [] then 0 else TotalJobs(samples[..|samples| - 1]) + samples[|samples| - 1].jobsStarted
  }

  function TotalRunning(samples: seq<Sample>): nat {
    if samples == [] then 0 else TotalRunning(samples[..|samples| - 1]) + samples[|samples| - 1].running
  }

  /** What the totals of a single sample are. */
  lemma TotalsOfOne(s: Sample, job: nat)
    ensures TotalBusy([s]) == Min(s.utilization, s.duration) && TotalDuration([s]) == s.duration
    ensures TotalJobs([s]) == s.jobsStarted && TotalRunning([s]) == s.running
    ensures JobsStarted([s], job) == (if job < |s.jobs| then s.jobs[job].jobsStarted else 0)
    ensures JobsBusy([s], job) == (if job < |s.jobs| then s.jobs[job].busyTime else 0)
    ensures Values([s], job) == if job < |s.jobs| && s.jobs[job].metric.Number? then [s.jobs[job].metric.value] else []
  {
    assert [s][..0] == [];
  }

  /** The totals of two groups of samples add up. */
  lemma {:induction false} TotalsAdd(a: seq<Sample>, b: seq<Sample>, job: nat)
    ensures TotalBusy(a + b) == TotalBusy(a) + TotalBusy(b) && TotalDuration(a + b) == TotalDuration(a) + TotalDuration(b)
    ensures TotalJobs(a + b) == TotalJobs(a) + TotalJobs(b) && TotalRunning(a + b) == TotalRunning(a) + TotalRunning(b)
    ensures JobsStarted(a + b, job) == JobsStarted(a, job) + JobsStarted(b, job)
    ensures JobsBusy(a + b, job) == JobsBusy(a, job) + JobsBusy(b, job)
    ensures Values(a + b, job) == Values(a, job) + Values(b, job)
    decreases |b|
  {
    if b == [] {
      assert a + b == a;
    } else {
      var n := |b| - 1;
      TotalsAdd(a, b[..n], job);
      assert (a + b)[..|a + b| - 1] == a + b[..n] && (a + b)[|a + b| - 1] == b[n];
      var last := if job < |b[n].jobs| && b[n].jobs[job].metric.Number? then [b[n].jobs[job].metric.value] else [];
      assert Values(a, job) + Values(b[..n], job) + last == Values(a, job) + (Values(b[..n], job) + last);
    }
  }

  /** Sums of values, without the order of adding. */
  lemma {:induction false} SumAdds(a: seq<real>, b: seq<real>)
    ensures Sum(a + b) == Sum(a) + Sum(b)
    decreases |b|
  {
    if b == [] {
      assert a + b == a;
    } else {
      var n := |b| - 1;
      SumAdds(a, b[..n]);
      assert (a + b)[..|a + b| - 1] == a + b[..n] && (a + b)[|a + b| - 1] == b[n];
    }
  }

  function Min(a: nat, b: nat): nat {
    if a < b then a else b
  }

  /** The samples of workers that were observed for some time. */
  predicate Counts(s: Sample) {
    s.duration > 0
  }

  /** `low` and `high` are the smallest and the largest percentage, or the initial values if there is none. */
  ghost predicate Extremes(samples: seq<Sample>, low: real, high: real) {
    && (forall s | s in samples && Counts(s) :: low <= Percent(s) <= high)
    && ((exists s | s in samples :: Counts(s) && Percent(s) == low) || (Idle(samples) && low == MIN_PERCENT_DEFAULT))
    && ((exists s | s in samples :: Counts(s) && Percent(s) == high) || high == 0.0)
  }

  ghost predicate Idle(samples: seq<Sample>) {
    forall s | s in samples :: !Counts(s)
  }

  /** The numbers reported for one job type, in order. */
  function Values(samples: seq<Sample>, job: nat): seq<real> {
    if samples == [] then []
    else
      var s := samples[|samples| - 1];
      Values(samples[..|samples| - 1], job) +
      if job < |s.jobs| && s.jobs[job].metric.Number? then [s.jobs[job].metric.value] else []
  }

  function Sum(values: seq<real>): real {
    if values == [] then 0.0 else Sum(values[..|values| - 1]) + values[|values| - 1]
  }

  function JobsStarted(samples: seq<Sample>, job: nat): nat {
    if samples == [] then 0
    else
      var s := samples[|samples| - 1];
      JobsStarted(samples[..|samples| - 1], job) + if job < |s.jobs| then s.jobs[job].jobsStarted else 0
  }

  function JobsBusy(samples: seq<Sample>, job: nat): nat {
    if samples == [] then 0
    else
      var s := samples[|samples| - 1];
      JobsBusy(samples[..|samples| - 1], job) + if job < |s.jobs| then s.jobs[job].busyTime else 0
  }

  // ---- the laws --------------------------------------------------------------------------------------

  lemma PercentRange(s: Sample)
    requires Counts(s)
    ensures 0.0 <= Percent(s) <= 100.0
    ensures Percent(s) * s.duration as real == Busy(s) as real * 100.0
  {
    var b, d := Busy(s) as real, s.duration as real;
    assert b <= d && d > 0.0;
    assert b * 100.0 / d <= 100.0;
  }

  lemma Scale(x: real, y: real, d: real)
    requires x <= y && d >= 0.0
    ensures x * d <= y * d
  {
  }

  /** `x` times `n`, as a repeated sum. */
  function Times(x: real, n: nat): real {
    if n == 0 then 0.0 else Times(x, n - 1) + x
  }

  lemma {:induction false} TimesIsProduct(x: real, n: nat)
    ensures Times(x, n) == x * n as real
  {
    if n > 0 {
      TimesIsProduct(x, n - 1);
      assert x * n as real == x * (n - 1) as real + x;
    }
  }

  lemma {:induction false} TimesAdds(x: real, m: nat, n: nat)
    ensures Times(x, m + n) == Times(x, m) + Times(x, n)
    decreases n
  {
    if n > 0 {
      TimesAdds(x, m, n - 1);
    }
  }

  /** The worker was busy for a share of its duration between `low` and `high` percent. */
  ghost predicate Within(busy: nat, duration: nat, low: real, high: real) {
    Times(low, duration) <= busy as real * 100.0 <= Times(high, duration)
  }

  lemma SampleBounds(s: Sample, low: real, high: real)
    requires Counts(s) && low <= Percent(s) <= high
    ensures low * s.duration as real <= Busy(s) as real * 100.0 <= high * s.duration as real
  {
    var p, d := Percent(s), s.duration as real;
    PercentRange(s);
    Scale(low, p, d);
    Scale(p, high, d);
  }

  lemma SampleWithin(s: Sample, low: real, high: real)
    requires Counts(s) ==> low <= Percent(s) <= high
    ensures Within(Busy(s), s.duration, low, high)
  {
    if Counts(s) {
      SampleBounds(s, low, high);
      TimesIsProduct(low, s.duration);
      TimesIsProduct(high, s.duration);
    }
  }

  /** Weighted by their durations, percentages between two bounds average between them. */
  lemma {:induction false} TotalWithin(samples: seq<Sample>, low: real, high: real)
    requires forall i | 0 <= i < |samples| :: Within(Busy(samples[i]), samples[i].duration, low, high)
    ensures Within(TotalBusy(samples), TotalDuration(samples), low, high)
    decreases |samples|
  {
    if samples != [] {
      var n := |samples| - 1;
      TotalWithin(samples[..n], low, high);
      TimesAdds(low, TotalDuration(samples[..n]), samples[n].duration);
      TimesAdds(high, TotalDuration(samples[..n]), samples[n].duration);
    }
  }

  lemma {:induction false} IdleTotals(samples: seq<Sample>)
    ensures TotalDuration(samples) == 0 <==> Idle(samples)
    ensures Idle(samples) ==> TotalBusy(samples) == 0
    decreases |samples|
  {
    if samples != [] {
      var rest, s := samples[..|samples| - 1], samples[|samples| - 1];
      IdleTotals(rest);
      assert samples == rest + [s];
      assert s in samples;
      assert Idle(samples) <==> Idle(rest) && !Counts(s);
    }
  }

  /** The three figures of the chart: the smallest, the average and the largest percentage. */
  function Charted(samples: seq<Sample>, low: real, high: real): (real, real, real) {
    (if low == MIN_PERCENT_DEFAULT then 0.0 else low,
     if TotalDuration(samples) == 0 then 0.0
     else TotalBusy(samples) as real * 100.0 / TotalDuration(samples) as real,
     high)
  }

  lemma Quotient(low: real, total: real, high: real, d: real)
    requires d > 0.0 && low * d <= total <= high * d
    ensures low <= total / d <= high
  {
    var q := total / d;
    assert q * d == total;
  }

  lemma WithinQuotient(busy: nat, duration: nat, low: real, high: real)
    requires duration > 0 && Within(busy, duration, low, high)
    ensures low <= busy as real * 100.0 / duration as real <= high
  {
    TimesIsProduct(low, duration);
    TimesIsProduct(high, duration);
    Quotient(low, busy as real * 100.0, high, duration as real);
  }

  lemma AverageOfTimes(samples: seq<Sample>, low: real, high: real)
    requires TotalDuration(samples) > 0
    requires forall s | s in samples && Counts(s) :: low <= Percent(s) <= high
    ensures low <= TotalBusy(samples) as real * 100.0 / TotalDuration(samples) as real <= high
  {
    forall i | 0 <= i < |samples|
      ensures Within(Busy(samples[i]), samples[i].duration, low, high)
    {
      SampleWithin(samples[i], low, high);
    }
    TotalWithin(samples, low, high);
    WithinQuotient(TotalBusy(samples), TotalDuration(samples), low, high);
  }

  lemma ExtremesRange(samples: seq<Sample>, low: real, high: real)
    requires Extremes(samples, low, high)
    ensures 0.0 <= low && high <= 100.0
    ensures low == MIN_PERCENT_DEFAULT <==> Idle(samples)
    ensures Idle(samples) ==> high == 0.0
  {
    forall s | s in samples && Counts(s)
      ensures 0.0 <= Percent(s) <= 100.0
    {
      PercentRange(s);
    }
  }

  /** `low` and `high` are percentages that were observed, and all others lie between them. */
  ghost predicate Attained(samples: seq<Sample>, low: real, high: real) {
    && (exists s | s in samples :: Counts(s) && Percent(s) == low)
    && (exists s | s in samples :: Counts(s) && Percent(s) == high)
    && (forall s | s in samples && Counts(s) :: low <= Percent(s) <= high)
  }

  lemma AverageIsShare(busy: real, duration: real, average: real)
    requires duration > 0.0 && average == busy * 100.0 / duration
    ensures average * duration == 100.0 * busy
  {
  }

  lemma ExtremesAttained(samples: seq<Sample>, low: real, high: real)
    requires Extremes(samples, low, high) && !Idle(samples)
    ensures Attained(samples, low, high)
  {
    var t :| t in samples && Counts(t);
    PercentRange(t);
  }

  /** The average is the busy share of the whole time. */
  ghost predicate IsShare(average: real, samples: seq<Sample>) {
    average * TotalDuration(samples) as real == 100.0 * TotalBusy(samples) as real
  }

  /** The charted extremes are observed ones and the average is the busy share; idle groups chart zero. */
  lemma ChartedExactly(samples: seq<Sample>, low: real, high: real)
    requires Extremes(samples, low, high)
    ensures var c := Charted(samples, low, high);
      if Idle(samples) then c == (0.0, 0.0, 0.0) else Attained(samples, c.0, c.2) && IsShare(c.1, samples)
  {
    IdleTotals(samples);
    ExtremesRange(samples, low, high);
    if !Idle(samples) {
      ExtremesAttained(samples, low, high);
      ShareCharted(samples, low, high);
    }
  }

  lemma ShareCharted(samples: seq<Sample>, low: real, high: real)
    requires TotalDuration(samples) > 0
    ensures IsShare(Charted(samples, low, high).1, samples)
  {
    AverageIsShare(TotalBusy(samples) as real, TotalDuration(samples) as real, Charted(samples, low, high).1);
  }

  /** Whatever was observed, the charted figures are in order and between 0% and 100%. */
  lemma ChartedInOrder(samples: seq<Sample>, low: real, high: real)
    requires Extremes(samples, low, high)
    ensures var c := Charted(samples, low, high); 0.0 <= c.0 <= c.1 <= c.2 <= 100.0
  {
    IdleTotals(samples);
    ExtremesRange(samples, low, high);
    if TotalDuration(samples) > 0 {
      AverageOfTimes(samples, low, high);
    }
  }

  lemma {:induction false} SumBounds(values: seq<real>, low: real, high: real)
    requires forall v | v in values :: low <= v <= high
    ensures Times(low, |values|) <= Sum(values) <= Times(high, |values|)
    decreases |values|
  {
    if values != [] {
      var n := |values| - 1;
      forall v | v in values[..n]
        ensures v in values
      {
      }
      SumBounds(values[..n], low, high);
      assert values[n] in values;
    }
  }

  /** The average of a metric lies between its extremes. */
  lemma AverageBounds(values: seq<real>, low: real, high: real)
    requires values != [] && forall v | v in values :: low <= v <= high
    ensures low <= Sum(values) / |values| as real <= high
  {
    SumBounds(values, low, high);
    TimesIsProduct(low, |values|);
    TimesIsProduct(high, |values|);
    Quotient(low, Sum(values), high, |values| as real);
  }

  // ---- the accumulators ------------------------------------------------------------------------------

  /** `per_job_type`; without a number yet, the extremes and the sum are not numbers. */
  datatype JobType = JobType(jobsStarted: nat, busyTime: nat, figures: Figures)

  datatype Figures = NoFigures | Figures(count: nat, min: real, max: real, sum: real)

  /** The figures are those of the values: their number, sum, smallest and largest. */
  ghost predicate Describes(f: Figures, values: seq<real>) {
    match f
    case NoFigures => values == []
    case Figures(count, min, max, sum) =>
      && values != [] && count == |values| && sum == Sum(values)
      && min in values && max in values && forall v | v in values :: min <= v <= max
  }

  function AddValue(f: Figures, v: real): Figures {
    match f
    case NoFigures => Figures(1, v, v, v)
    case Figures(count, min, max, sum) =>
      Figures(count + 1, if v < min then v else min, if v > max then v else max, sum + v)
  }

  lemma AddValueDescribes(f: Figures, values: seq<real>, v: real)
    requires Describes(f, values)
    ensures Describes(AddValue(f, v), values + [v])
  {
    assert (values + [v])[..|values|] == values;
    assert v in values + [v];
  }

  ghost predicate JobDescribes(t: JobType, samples: seq<Sample>, job: nat) {
    && t.jobsStarted == JobsStarted(samples, job)
    && t.busyTime == JobsBusy(samples, job)
    && Describes(t.figures, Values(samples, job))
  }

  function AddJob(t: JobType, j: Job): JobType {
    JobType(
      t.jobsStarted + j.jobsStarted,
      t.busyTime + j.busyTime,
      match j.metric case NotANumber => t.figures case Number(v) => AddValue(t.figures, v))
  }

  lemma AddJobDescribes(t: JobType, samples: seq<Sample>, job: nat, s: Sample)
    requires JobDescribes(t, samples, job)
    ensures JobDescribes(if job < |s.jobs| then AddJob(t, s.jobs[job]) else t, samples + [s], job)
  {
    assert (samples + [s])[..|samples|] == samples;
    var values := Values(samples, job);
    if job < |s.jobs| && s.jobs[job].metric.Number? {
      AddValueDescribes(t.figures, values, s.jobs[job].metric.value);
    } else {
      assert Values(samples + [s], job) == values + [];
      assert values + [] == values;
    }
  }

  lemma ExtremesIdle(samples: seq<Sample>, s: Sample, low: real, high: real)
    requires Extremes(samples, low, high) && !Counts(s)
    ensures Extremes(samples + [s], low, high)
  {
    var more := samples + [s];
    if exists t | t in samples :: Counts(t) && Percent(t) == low {
      var t :| t in samples && Counts(t) && Percent(t) == low;
      assert t in more;
    }
    if exists t | t in samples :: Counts(t) && Percent(t) == high {
      var t :| t in samples && Counts(t) && Percent(t) == high;
      assert t in more;
    }
  }

  lemma ExtremesAdd(samples: seq<Sample>, s: Sample, low: real, high: real)
    requires Extremes(samples, low, high) && Counts(s)
    ensures Extremes(samples + [s], if Percent(s) < low then Percent(s) else low,
                     if Percent(s) > high then Percent(s) else high)
  {
    var more := samples + [s];
    PercentRange(s);
    assert s in more;
    if exists t | t in samples :: Counts(t) && Percent(t) == low {
      var t :| t in samples && Counts(t) && Percent(t) == low;
      assert t in more;
    }
    if exists t | t in samples :: Counts(t) && Percent(t) == high {
      var t :| t in samples && Counts(t) && Percent(t) == high;
      assert t in more;
    }
  }

  class WorkerUtilization {
    var workersRegistered: nat
    var workersBusy: nat
    var totalBusyTime: nat
    var totalDuration: nat
    var totalJobsStarted: nat
    var minBusyTime: real
    var maxBusyTime: real
    const perJobType: array<JobType>
    /** The samples since the last reset. */
    ghost var samples: seq<Sample>

    ghost predicate TimesDescribe(samples: seq<Sample>)
      reads this
    {
      && workersRegistered == |samples|
      && workersBusy == TotalRunning(samples)
      && totalBusyTime == TotalBusy(samples)
      && totalDuration == TotalDuration(samples)
      && totalJobsStarted == TotalJobs(samples)
      && Extremes(samples, minBusyTime, maxBusyTime)
    }

    ghost predicate JobsDescribe(samples: seq<Sample>)
      reads perJobType
    {
      && perJobType.Length == MAX_JOB_TYPES
      && forall i | 0 <= i < MAX_JOB_TYPES :: JobDescribes(perJobType[i], samples, i)
    }

    ghost predicate Valid()
      reads this, perJobType
    {
      TimesDescribe(samples) && JobsDescribe(samples)
    }

    constructor ()
      ensures Valid() && fresh(perJobType) && samples == []
    {
      perJobType := new JobType[MAX_JOB_TYPES](_ => JobType(0, 0, NoFigures));
      workersRegistered, workersBusy, totalBusyTime, totalDuration, totalJobsStarted := 0, 0, 0, 0, 0;
      minBusyTime, maxBusyTime := MIN_PERCENT_DEFAULT, 0.0;
      samples := [];
    }

    /** `workers_utilization_reset_statistics` */
    method Reset()
      requires perJobType.Length == MAX_JOB_TYPES
      modifies this, perJobType
      ensures Valid() && samples == []
    {
      workersRegistered, workersBusy, totalBusyTime, totalDuration, totalJobsStarted := 0, 0, 0, 0, 0;
      minBusyTime, maxBusyTime := MIN_PERCENT_DEFAULT, 0.0;
      for i := 0 to MAX_JOB_TYPES
        modifies perJobType
        invariant forall j | 0 <= j < i :: perJobType[j] == JobType(0, 0, NoFigures)
      {
        perJobType[i] := JobType(0, 0, NoFigures);
      }
      samples := [];
      assert forall i | 0 <= i < MAX_JOB_TYPES :: JobDescribes(JobType(0, 0, NoFigures), samples, i);
    }

    /** The per job type loop of `worker_utilization_charts_callback` */
    method AccountJobs(s: Sample)
      requires JobsDescribe(samples) && |s.jobs| <= MAX_JOB_TYPES
      modifies perJobType
      ensures JobsDescribe(samples + [s])
    {
      for i := 0 to |s.jobs|
        invariant forall j | 0 <= j < MAX_JOB_TYPES ::
            perJobType[j] == if j < i then AddJob(old(perJobType[j]), s.jobs[j]) else old(perJobType[j])
      {
        perJobType[i] := AddJob(perJobType[i], s.jobs[i]);
      }
      forall i | 0 <= i < MAX_JOB_TYPES
        ensures JobDescribes(perJobType[i], samples + [s], i)
      {
        AddJobDescribes(old(perJobType[i]), samples, i, s);
      }
    }

    /** The extremes of `worker_utilization_charts_callback` */
    method TrackExtremes(s: Sample)
      requires Extremes(samples, minBusyTime, maxBusyTime)
      modifies this`minBusyTime, this`maxBusyTime
      ensures Extremes(samples + [s], minBusyTime, maxBusyTime)
    {
      if s.duration > 0 {
        ExtremesAdd(samples, s, minBusyTime, maxBusyTime);
        var util := Percent(s);
        if util > maxBusyTime {
          maxBusyTime := util;
        }
        if util < minBusyTime {
          minBusyTime := util;
        }
      } else {
        ExtremesIdle(samples, s, minBusyTime, maxBusyTime);
      }
    }

    /** The times and counters of `worker_utilization_charts_callback` */
    method AccountTimes(s: Sample)
      requires TimesDescribe(samples)
      modifies this
      ensures samples == old(samples) && TimesDescribe(samples + [s])
    {
      TrackExtremes(s);
      assert (samples + [s])[..|samples|] == samples;
      totalBusyTime := totalBusyTime + Busy(s);
      totalDuration := totalDuration + s.duration;
      totalJobsStarted := totalJobsStarted + s.jobsStarted;
      workersBusy := workersBusy + s.running;
      workersRegistered := workersRegistered + 1;
    }

    /** The accounting of `worker_utilization_charts_callback` */
    method Account(s: Sample)
      requires Valid() && |s.jobs| <= MAX_JOB_TYPES
      modifies this, perJobType
      ensures Valid() && samples == old(samples) + [s]
    {
      AccountTimes(s);
      AccountJobs(s);
      samples := samples + [s];
    }

    method Figures() returns (low: real, average: real, high: real)
      requires Valid()
      modifies this`minBusyTime
      ensures (low, average, high) == Charted(samples, old(minBusyTime), maxBusyTime)
    {
      if minBusyTime == MIN_PERCENT_DEFAULT {
        minBusyTime := 0.0;
      }
      low, high := minBusyTime, maxBusyTime;
      average := if totalDuration == 0 then 0.0 else totalBusyTime as real * 100.0 / totalDuration as real;
    }

    /** The charted figures of `workers_utilization_update_chart` */
    method Chart() returns (low: real, average: real, high: real)
      requires Valid()
      modifies this`minBusyTime
      ensures Idle(samples) ==> low == average == high == 0.0
      ensures !Idle(samples) ==> Attained(samples, low, high) && IsShare(average, samples)
      ensures 0.0 <= low <= average <= high <= 100.0
    {
      ChartedInOrder(samples, minBusyTime, maxBusyTime);
      ChartedExactly(samples, minBusyTime, maxBusyTime);
      low, average, high := Figures();
    }

    /** The charted average of a job metric, if there is any number */
    method JobAverage(i: nat) returns (average: real)
      requires Valid() && i < MAX_JOB_TYPES && perJobType[i].figures.Figures?
      ensures perJobType[i].figures.min <= average <= perJobType[i].figures.max
      ensures Values(samples, i) != [] && average == Sum(Values(samples, i)) / |Values(samples, i)| as real
    {
      ghost var values := Values(samples, i);
      var f := perJobType[i].figures;
      assert Describes(f, values);
      AverageBounds(values, f.min, f.max);
      average := f.sum / f.count as real;
    }
  }
}
