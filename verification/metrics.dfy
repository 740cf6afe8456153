/** `MetricsCollector`: the counting roll-ups behind the dashboard, over the job table's
    rows and the worker registry at clock time `now` (integer seconds, UTC). */
module Metrics {
  import opened Prelude
  import W = WorkerModel
  import opened JobModel

  const SecondsPerHour := 3600
  const SecondsPerMinute := 60
  const HourlyBucketCount := 24
  const RecentBucketCount := 10

  // Counting conditions.

  /** Status `s`, finished at or after `since`. */
  function FinishedSince(s: JobStatus, since: int): Job -> bool {
    (j: Job) => j.status == s && j.completedAt.Some? && j.completedAt.value >= since
  }

  /** Completed or failed, finished at or after `since`. */
  function EndedSince(since: int): Job -> bool {
    (j: Job) => (j.status == Completed || j.status == Failed) &&
                j.completedAt.Some? && j.completedAt.value >= since
  }

  /** Status `s`, finished within `[lo, hi]` (`whereBetween` is inclusive). */
  function FinishedBetween(s: JobStatus, lo: int, hi: int): Job -> bool {
    (j: Job) => j.status == s && j.completedAt.Some? && lo <= j.completedAt.value <= hi
  }

  /** `whereIn('status', [completed, failed])->whereBetween('completed_at', [lo, hi])`. */
  function EndedBetween(lo: int, hi: int): Job -> bool {
    (j: Job) => (j.status == Completed || j.status == Failed) &&
                j.completedAt.Some? && lo <= j.completedAt.value <= hi
  }

  /** Every job has exactly one of the four statuses. */
  lemma {:induction false} JobStatusPartition(jobs: seq<Job>)
    ensures Count(jobs, StatusIs(Pending)) + Count(jobs, StatusIs(Processing)) +
            Count(jobs, StatusIs(Completed)) + Count(jobs, StatusIs(Failed)) == |jobs|
  {
    if |jobs| > 0 {
      JobStatusPartition(jobs[1..]);
    }
  }

  /** Every worker has exactly one of the three statuses. */
  lemma {:induction false} WorkerStatusPartition(reg: W.Registry)
    ensures Count(reg, W.HasStatus(W.Running)) + Count(reg, W.HasStatus(W.Paused)) +
            Count(reg, W.HasStatus(W.Stopped)) == |reg|
  {
    if |reg| > 0 {
      WorkerStatusPartition(reg[1..]);
    }
  }

  // getStats.

  /** `where('completed_at', '>=', $since)`: a null `completed_at` never compares. */
  function CompletedSince(since: int): Job -> bool {
    (j: Job) => j.completedAt.Some? && j.completedAt.value >= since
  }

  /** Counting a status's recent finishes over the whole table is the same as counting the
      recent ones within that status's scope. */
  lemma WindowWithinScope(jobs: seq<Job>, s: JobStatus, since: int)
    ensures Count(jobs, FinishedSince(s, since)) == Count(WithStatus(jobs, s), CompletedSince(since))
  {
    CountOfFilter(jobs, StatusIs(s), CompletedSince(since), FinishedSince(s, since));
  }

  datatype Stats = Stats(
    totalJobs: nat,
    pending: nat,
    processing: nat,
    completed: nat,
    failed: nat,
    completedLastHour: nat,
    failedLastHour: nat,
    activeWorkers: nat,
    pausedWorkers: nat)

  /** The nine figures, given where each "last hour" window starts. */
  function StatsFrom(jobs: seq<Job>, reg: W.Registry, completedSince: int, failedSince: int)
    : (r: Stats)
    ensures r.pending + r.processing + r.completed + r.failed == r.totalJobs
    ensures r.totalJobs == |jobs|
    ensures r.pending == |WithStatus(jobs, Pending)| && r.processing == |WithStatus(jobs, Processing)|
    ensures r.completed == |CompletedScope(jobs)| && r.failed == |FailedScope(jobs)|
    ensures r.completedLastHour == Count(CompletedScope(jobs), CompletedSince(completedSince))
    ensures r.failedLastHour == Count(FailedScope(jobs), CompletedSince(failedSince))
    ensures r.completedLastHour <= r.completed && r.failedLastHour <= r.failed
    ensures r.activeWorkers == |W.RunningScope(reg)|
    ensures r.pausedWorkers == |W.WithStatus(reg, W.Paused)|
    ensures r.activeWorkers + r.pausedWorkers <= |reg|
  {
    JobStatusPartition(jobs);
    WorkerStatusPartition(reg);
    WindowWithinScope(jobs, Completed, completedSince);
    WindowWithinScope(jobs, Failed, failedSince);
    CountMonotone(jobs, FinishedSince(Completed, completedSince), StatusIs(Completed));
    CountMonotone(jobs, FinishedSince(Failed, failedSince), StatusIs(Failed));
    Stats(|jobs|,
          Count(jobs, StatusIs(Pending)),
          Count(jobs, StatusIs(Processing)),
          Count(jobs, StatusIs(Completed)),
          Count(jobs, StatusIs(Failed)),
          Count(jobs, FinishedSince(Completed, completedSince)),
          Count(jobs, FinishedSince(Failed, failedSince)),
          Count(reg, W.HasStatus(W.Running)),
          Count(reg, W.HasStatus(W.Paused)))
  }

  /** `getStats` as written: `$now->subHour()` moves `$now` itself back an hour, and the
      failed window is then taken an hour before the moved time, so it spans two hours. */
  function GetStatsAsWritten(jobs: seq<Job>, reg: W.Registry, now: int): (r: Stats)
    ensures r.pending + r.processing + r.completed + r.failed == r.totalJobs
    ensures r.completedLastHour <= r.completed && r.failedLastHour <= r.failed
    ensures r.completedLastHour == Count(jobs, FinishedSince(Completed, now - SecondsPerHour))
    ensures r.failedLastHour == Count(jobs, FinishedSince(Failed, now - 2 * SecondsPerHour))
  {
    var moved := now - SecondsPerHour;
    StatsFrom(jobs, reg, moved, moved - SecondsPerHour)
  }

  /** `getStats` with both "last hour" windows starting an hour before `now`. */
  function GetStats(jobs: seq<Job>, reg: W.Registry, now: int): (r: Stats)
    ensures r.totalJobs == |jobs|
    ensures r.pending + r.processing + r.completed + r.failed == r.totalJobs
    ensures r.pending == |WithStatus(jobs, Pending)| && r.processing == |WithStatus(jobs, Processing)|
    ensures r.completed == |CompletedScope(jobs)| && r.failed == |FailedScope(jobs)|
    ensures r.completedLastHour == Count(jobs, FinishedSince(Completed, now - SecondsPerHour))
    ensures r.failedLastHour == Count(jobs, FinishedSince(Failed, now - SecondsPerHour))
    ensures r.completedLastHour <= r.completed && r.failedLastHour <= r.failed
    ensures r.activeWorkers == |W.RunningScope(reg)|
    ensures r.pausedWorkers == |W.WithStatus(reg, W.Paused)|
    ensures r.activeWorkers + r.pausedWorkers <= |reg|
  {
    StatsFrom(jobs, reg, now - SecondsPerHour, now - SecondsPerHour)
  }

  /** Corrected, the two "last hour" figures share one window: together they count exactly
      the jobs that ended in the last hour. */
  lemma LastHourWindowsAgree(jobs: seq<Job>, reg: W.Registry, now: int)
    ensures GetStats(jobs, reg, now).completedLastHour + GetStats(jobs, reg, now).failedLastHour
         == Count(jobs, EndedSince(now - SecondsPerHour))
  {
    CountDisjoint(jobs, FinishedSince(Completed, now - SecondsPerHour),
                  FinishedSince(Failed, now - SecondsPerHour), EndedSince(now - SecondsPerHour));
  }

  /** As written, a job that failed ninety minutes ago is counted as failed in the last
      hour, and the two figures no longer add up to the jobs that ended in the last hour. */
  lemma FailedLastHourAsWrittenOvercounts(reg: W.Registry, now: int, j: Job)
    requires j.status == Failed && j.completedAt == Some(now - 5400)
    ensures GetStatsAsWritten([j], reg, now).failedLastHour == 1
    ensures GetStats([j], reg, now).failedLastHour == 0
    ensures GetStatsAsWritten([j], reg, now).completedLastHour +
            GetStatsAsWritten([j], reg, now).failedLastHour
         != Count([j], EndedSince(now - SecondsPerHour))
  {
    CountSingleton(j, FinishedSince(Failed, now - 2 * SecondsPerHour));
    CountSingleton(j, FinishedSince(Failed, now - SecondsPerHour));
    CountSingleton(j, FinishedSince(Completed, now - SecondsPerHour));
    CountSingleton(j, EndedSince(now - SecondsPerHour));
  }

  // Time buckets.

  /** `startOfHour` / `startOfMinute` on integer UTC time: the start of the `width`-second
      bucket holding `t`. */
  function StartOf(t: int, width: int): int
    requires width > 0
  {
    t - t % width
  }

  /** Stepping back `i` whole buckets from `t` lands in the bucket `i` before `t`'s. */
  lemma StartOfShift(t: int, i: nat, width: int)
    requires width > 0
    ensures StartOf(t - i * width, width) == StartOf(t, width) - i * width
    ensures StartOf(t, width) <= t < StartOf(t, width) + width
  {
    var q := t / width;
    assert (q - i) * width == q * width - i * width;
    ModUnique(t - i * width, width, q - i, t % width);
  }

  datatype HourBucket = HourBucket(start: int, completed: nat, failed: nat) {
    /** The bucket's figure for status `s` (zero for the statuses it does not report). */
    function Tally(s: JobStatus): nat {
      match s
      case Completed => completed
      case Failed => failed
      case _ => 0
    }
  }

  /** The bucket `i` hours back from `now`: from `startOfHour` to `endOfHour`, to the
      second. */
  function HourBucketAt(jobs: seq<Job>, now: int, i: nat): HourBucket {
    var start := StartOf(now - i * SecondsPerHour, SecondsPerHour);
    var end := start + SecondsPerHour - 1;
    HourBucket(start, Count(jobs, FinishedBetween(Completed, start, end)),
               Count(jobs, FinishedBetween(Failed, start, end)))
  }

  /** A bucket's two figures count the jobs finished within its hour. */
  predicate CountsHour(jobs: seq<Job>, b: HourBucket) {
    && b.completed == Count(jobs, FinishedBetween(Completed, b.start, b.start + SecondsPerHour - 1))
    && b.failed == Count(jobs, FinishedBetween(Failed, b.start, b.start + SecondsPerHour - 1))
  }

  lemma HourBucketAtShape(jobs: seq<Job>, now: int, i: nat)
    ensures HourBucketAt(jobs, now, i).start == StartOf(now, SecondsPerHour) - i * SecondsPerHour
    ensures CountsHour(jobs, HourBucketAt(jobs, now, i))
  {
    StartOfShift(now, i, SecondsPerHour);
  }

  /** `getHourlyThroughput`: 24 hour buckets, oldest first, the last one the hour holding
      `now`, each with completed and failed counted separately. */
  function HourlyThroughput(jobs: seq<Job>, now: int): (r: seq<HourBucket>)
    ensures |r| == HourlyBucketCount
    ensures forall k :: 0 <= k < |r| ==>
              r[k].start == StartOf(now, SecondsPerHour) - (HourlyBucketCount - 1 - k) * SecondsPerHour
    ensures forall k :: 0 <= k < |r| ==> CountsHour(jobs, r[k])
  {
    var r := seq(HourlyBucketCount, k requires 0 <= k < HourlyBucketCount =>
                 HourBucketAt(jobs, now, HourlyBucketCount - 1 - k));
    forall k | 0 <= k < HourlyBucketCount
      ensures r[k].start == StartOf(now, SecondsPerHour) - (HourlyBucketCount - 1 - k) * SecondsPerHour
      ensures CountsHour(jobs, r[k])
    {
      HourBucketAtShape(jobs, now, HourlyBucketCount - 1 - k);
    }
    r
  }

  /** The hourly buckets are consecutive and the last one holds `now`. */
  lemma HourlyContiguous(jobs: seq<Job>, now: int)
    ensures var r := HourlyThroughput(jobs, now);
            (forall k :: 0 < k < |r| ==> r[k].start == r[k - 1].start + SecondsPerHour) &&
            r[|r| - 1].start <= now < r[|r| - 1].start + SecondsPerHour
  {
    StartOfShift(now, 0, SecondsPerHour);
  }

  /** The figures for status `s` summed over a run of buckets. */
  function SumTally(bs: seq<HourBucket>, s: JobStatus): nat
    decreases |bs|
  {
    if |bs| == 0 then 0 else SumTally(bs[..|bs| - 1], s) + bs[|bs| - 1].Tally(s)
  }

  /** Two adjacent closed windows count what their union counts. */
  lemma SplitWindow(jobs: seq<Job>, s: JobStatus, lo: int, mid: int, hi: int)
    requires lo <= mid + 1 && mid <= hi
    ensures Count(jobs, FinishedBetween(s, lo, mid)) + Count(jobs, FinishedBetween(s, mid + 1, hi))
         == Count(jobs, FinishedBetween(s, lo, hi))
  {
    CountDisjoint(jobs, FinishedBetween(s, lo, mid), FinishedBetween(s, mid + 1, hi),
                  FinishedBetween(s, lo, hi));
  }

  /** A bucket's figure for a finished status is the count of its window. */
  lemma TallyIsWindow(jobs: seq<Job>, b: HourBucket, s: JobStatus)
    requires CountsHour(jobs, b) && (s == Completed || s == Failed)
    ensures b.Tally(s) == Count(jobs, FinishedBetween(s, b.start, b.start + SecondsPerHour - 1))
  {
  }

  /** Consecutive hour buckets span whole hours from the first start. */
  lemma {:induction false} BucketsSpan(bs: seq<HourBucket>)
    requires |bs| > 0
    requires forall k :: 0 < k < |bs| ==> bs[k].start == bs[k - 1].start + SecondsPerHour
    ensures bs[|bs| - 1].start == bs[0].start + (|bs| - 1) * SecondsPerHour
    decreases |bs|
  {
    if |bs| > 1 {
      BucketsSpan(bs[..|bs| - 1]);
    }
  }

  /** One more hour after a covered span: the running sum covers the longer span. */
  lemma CoverStep(jobs: seq<Job>, s: JobStatus, lo: int, m: int, before: nat, tally: nat)
    requires lo <= m
    requires before == Count(jobs, FinishedBetween(s, lo, m - 1))
    requires tally == Count(jobs, FinishedBetween(s, m, m + SecondsPerHour - 1))
    ensures before + tally == Count(jobs, FinishedBetween(s, lo, m + SecondsPerHour - 1))
  {
    SplitWindow(jobs, s, lo, m - 1, m + SecondsPerHour - 1);
  }

  /** Consecutive hour buckets together count every job in the span they cover, each once. */
  lemma {:induction false} BucketsCover(jobs: seq<Job>, bs: seq<HourBucket>, s: JobStatus)
    requires |bs| > 0
    requires forall k :: 0 < k < |bs| ==> bs[k].start == bs[k - 1].start + SecondsPerHour
    requires forall k :: 0 <= k < |bs| ==>
               bs[k].Tally(s) == Count(jobs, FinishedBetween(s, bs[k].start, bs[k].start + SecondsPerHour - 1))
    ensures SumTally(bs, s) ==
              Count(jobs, FinishedBetween(s, bs[0].start, bs[|bs| - 1].start + SecondsPerHour - 1))
    decreases |bs|
  {
    var n := |bs|;
    if n == 1 {
      assert bs[..0] == [];
    } else {
      var init := bs[..n - 1];
      var lo := bs[0].start;
      var m := bs[n - 1].start;
      assert init[0] == bs[0] && init[n - 2] == bs[n - 2];
      assert init[n - 2].start + SecondsPerHour - 1 == m - 1;
      BucketsCover(jobs, init, s);
      BucketsSpan(bs);
      CoverStep(jobs, s, lo, m, SumTally(init, s), bs[n - 1].Tally(s));
    }
  }

  /** Summed over the day, the hourly buckets count every job of that status that finished
      between the start of the hour 23 hours ago and the end of the current hour. */
  lemma HourlyCoversDay(jobs: seq<Job>, now: int, s: JobStatus)
    requires s == Completed || s == Failed
    ensures var r := HourlyThroughput(jobs, now);
            SumTally(r, s) ==
              Count(jobs, FinishedBetween(s, StartOf(now, SecondsPerHour) - 23 * SecondsPerHour,
                                          StartOf(now, SecondsPerHour) + SecondsPerHour - 1))
  {
    var r := HourlyThroughput(jobs, now);
    HourlyContiguous(jobs, now);
    forall k | 0 <= k < |r|
      ensures r[k].Tally(s) == Count(jobs, FinishedBetween(s, r[k].start, r[k].start + SecondsPerHour - 1))
    {
      TallyIsWindow(jobs, r[k], s);
    }
    BucketsCover(jobs, r, s);
  }

  datatype MinuteBucket = MinuteBucket(start: int, count: nat)

  /** The bucket `i` minutes back from `now`. */
  function MinuteBucketAt(jobs: seq<Job>, now: int, i: nat): MinuteBucket {
    var start := StartOf(now - i * SecondsPerMinute, SecondsPerMinute);
    MinuteBucket(start, Count(jobs, EndedBetween(start, start + SecondsPerMinute - 1)))
  }

  /** A bucket's figure is its minute's completed jobs plus its minute's failed jobs. */
  predicate CountsMinute(jobs: seq<Job>, b: MinuteBucket) {
    b.count == Count(jobs, FinishedBetween(Completed, b.start, b.start + SecondsPerMinute - 1)) +
               Count(jobs, FinishedBetween(Failed, b.start, b.start + SecondsPerMinute - 1))
  }

  lemma MinuteBucketAtShape(jobs: seq<Job>, now: int, i: nat)
    ensures MinuteBucketAt(jobs, now, i).start == StartOf(now, SecondsPerMinute) - i * SecondsPerMinute
    ensures CountsMinute(jobs, MinuteBucketAt(jobs, now, i))
  {
    StartOfShift(now, i, SecondsPerMinute);
    var lo := MinuteBucketAt(jobs, now, i).start;
    var hi := lo + SecondsPerMinute - 1;
    CountDisjoint(jobs, FinishedBetween(Completed, lo, hi), FinishedBetween(Failed, lo, hi),
                  EndedBetween(lo, hi));
  }

  /** `getRecentThroughput`: ten minute buckets, oldest first, the last one the minute
      holding `now`, each counting the jobs that completed or failed in it. */
  function RecentThroughput(jobs: seq<Job>, now: int): (r: seq<MinuteBucket>)
    ensures |r| == RecentBucketCount
    ensures forall k :: 0 <= k < |r| ==>
              r[k].start == StartOf(now, SecondsPerMinute) - (RecentBucketCount - 1 - k) * SecondsPerMinute
    ensures forall k :: 0 <= k < |r| ==> CountsMinute(jobs, r[k])
  {
    var r := seq(RecentBucketCount, k requires 0 <= k < RecentBucketCount =>
                 MinuteBucketAt(jobs, now, RecentBucketCount - 1 - k));
    forall k | 0 <= k < RecentBucketCount
      ensures r[k].start == StartOf(now, SecondsPerMinute) - (RecentBucketCount - 1 - k) * SecondsPerMinute
      ensures CountsMinute(jobs, r[k])
    {
      MinuteBucketAtShape(jobs, now, RecentBucketCount - 1 - k);
    }
    r
  }

  /** The minute buckets are consecutive and the last one holds `now`. */
  lemma RecentContiguous(jobs: seq<Job>, now: int)
    ensures var r := RecentThroughput(jobs, now);
            (forall k :: 0 < k < |r| ==> r[k].start == r[k - 1].start + SecondsPerMinute) &&
            r[|r| - 1].start <= now < r[|r| - 1].start + SecondsPerMinute
  {
    StartOfShift(now, 0, SecondsPerMinute);
  }

  // getQueueDepths.

  /** One row of `select queue, count(*) ... group by queue`. */
  datatype QueueDepth = QueueDepth(queue: string, count: nat)

  function PendingOn(q: string): Job -> bool {
    (j: Job) => j.status == Pending && j.queue == q
  }

  /** Each queue appears at most once. */
  predicate DistinctQueues(d: seq<QueueDepth>) {
    forall a, b :: 0 <= a < b < |d| ==> d[a].queue != d[b].queue
  }

  predicate HasQueue(d: seq<QueueDepth>, q: string) {
    exists i :: 0 <= i < |d| && d[i].queue == q
  }

  /** The count reported for `q` (absent from the collection means zero). */
  function DepthOf(d: seq<QueueDepth>, q: string): nat
    decreases |d|
  {
    if |d| == 0 then 0 else if d[0].queue == q then d[0].count else DepthOf(d[1..], q)
  }

  function SumDepths(d: seq<QueueDepth>): nat
    decreases |d|
  {
    if |d| == 0 then 0 else d[0].count + SumDepths(d[1..])
  }

  /** The position of `q`'s entry, if any. */
  function FindQueue(d: seq<QueueDepth>, q: string): (r: Option<nat>)
    ensures r.Some? ==> r.value < |d| && d[r.value].queue == q
    ensures r.None? ==> forall i :: 0 <= i < |d| ==> d[i].queue != q
    decreases |d|
  {
    if |d| == 0 then None
    else if d[0].queue == q then Some(0)
    else
      var r := FindQueue(d[1..], q);
      if r.Some? then Some(r.value + 1) else None
  }

  lemma {:induction false} DepthOfAbsent(d: seq<QueueDepth>, q: string)
    requires forall i :: 0 <= i < |d| ==> d[i].queue != q
    ensures DepthOf(d, q) == 0
    decreases |d|
  {
    if |d| > 0 {
      DepthOfAbsent(d[1..], q);
    }
  }

  lemma {:induction false} DepthOfAt(d: seq<QueueDepth>, i: nat)
    requires DistinctQueues(d) && i < |d|
    ensures DepthOf(d, d[i].queue) == d[i].count
    decreases |d|
  {
    if i > 0 {
      assert d[0].queue != d[i].queue;
      assert d[1..][i - 1] == d[i];
      DepthOfAt(d[1..], i - 1);
    }
  }

  lemma {:induction false} SumDepthsAppend(d: seq<QueueDepth>, x: QueueDepth)
    ensures SumDepths(d + [x]) == SumDepths(d) + x.count
    decreases |d|
  {
    if |d| == 0 {
      assert [x][1..] == [];
    } else {
      assert (d + [x])[1..] == d[1..] + [x];
      SumDepthsAppend(d[1..], x);
    }
  }

  lemma {:induction false} SumDepthsBump(d: seq<QueueDepth>, i: nat)
    requires i < |d|
    ensures SumDepths(d[i := d[i].(count := d[i].count + 1)]) == SumDepths(d) + 1
    decreases |d|
  {
    if i > 0 {
      assert d[i := d[i].(count := d[i].count + 1)][1..] == d[1..][i - 1 := d[i].(count := d[i].count + 1)];
      SumDepthsBump(d[1..], i - 1);
    }
  }

  /** Count one more pending job on `q`. */
  function AddPending(d: seq<QueueDepth>, q: string): (r: seq<QueueDepth>)
    requires DistinctQueues(d)
    ensures DistinctQueues(r)
    ensures SumDepths(r) == SumDepths(d) + 1
    ensures (forall e :: e in d ==> e.count > 0) ==> forall e :: e in r ==> e.count > 0
    ensures forall p :: HasQueue(r, p) <==> p == q || HasQueue(d, p)
  {
    match FindQueue(d, q)
    case None =>
      SumDepthsAppend(d, QueueDepth(q, 1));
      var r := d + [QueueDepth(q, 1)];
      assert r[|d|].queue == q;
      assert forall i :: 0 <= i < |d| ==> r[i] == d[i];
      r
    case Some(i) =>
      SumDepthsBump(d, i);
      var r := d[i := d[i].(count := d[i].count + 1)];
      assert forall k :: 0 <= k < |d| ==> r[k].queue == d[k].queue;
      r
  }

  /** How `AddPending` moves each queue's reported count. */
  lemma AddPendingDepth(d: seq<QueueDepth>, q: string, p: string)
    requires DistinctQueues(d)
    ensures DepthOf(AddPending(d, q), p) == DepthOf(d, p) + (if p == q then 1 else 0)
  {
    var r := AddPending(d, q);
    match FindQueue(d, q)
    case None =>
      if p == q {
        DepthOfAbsent(d, q);
        DepthOfAt(r, |d|);
      } else {
        match FindQueue(d, p)
        case None =>
          DepthOfAbsent(d, p);
          DepthOfAbsent(r, p);
        case Some(k) =>
          DepthOfAt(d, k);
          assert r[k] == d[k];
          DepthOfAt(r, k);
      }
    case Some(i) =>
      DepthOfAt(d, i);
      DepthOfAt(r, i);
      if p != q {
        match FindQueue(d, p)
        case None =>
          DepthOfAbsent(d, p);
          DepthOfAbsent(r, p);
        case Some(k) =>
          DepthOfAt(d, k);
          assert r[k] == d[k];
          DepthOfAt(r, k);
      }
  }

  /** `getQueueDepths`: one entry per queue that has pending jobs, holding how many. */
  function QueueDepths(jobs: seq<Job>): (r: seq<QueueDepth>)
    ensures DistinctQueues(r)
    ensures forall e :: e in r ==> e.count > 0
    ensures SumDepths(r) == Count(jobs, StatusIs(Pending))
    decreases |jobs|
  {
    if |jobs| == 0 then []
    else
      var rest := QueueDepths(jobs[1..]);
      if jobs[0].status == Pending then AddPending(rest, jobs[0].queue) else rest
  }

  /** Every queue's reported depth is its number of pending jobs, and a queue with none is
      absent. */
  lemma {:induction false} QueueDepthIsPendingCount(jobs: seq<Job>, q: string)
    ensures DepthOf(QueueDepths(jobs), q) == Count(jobs, PendingOn(q))
    decreases |jobs|
  {
    if |jobs| > 0 {
      QueueDepthIsPendingCount(jobs[1..], q);
      CountCons(jobs, PendingOn(q));
      if jobs[0].status == Pending {
        AddPendingDepth(QueueDepths(jobs[1..]), jobs[0].queue, q);
      }
    }
  }

  // getWorkerStats.

  datatype WorkerStats = WorkerStats(total: nat, running: nat, paused: nat, stopped: nat,
                                     healthy: nat)

  function HealthyAt(now: int): W.Worker -> bool {
    (w: W.Worker) => W.IsHealthy(w, now, W.HealthyThreshold)
  }

  /** `getWorkerStats`: the three status counts add up to the total, and health (at the
      default threshold) is counted among the total. */
  function GetWorkerStats(reg: W.Registry, now: int): (r: WorkerStats)
    ensures r.total == |reg|
    ensures r.running + r.paused + r.stopped == r.total
    ensures r.healthy <= r.total
    ensures r.healthy + |W.Stale(reg, now, W.HealthyThreshold)| == r.total
    ensures r.running == |W.RunningScope(reg)|
    ensures r.paused == |W.WithStatus(reg, W.Paused)|
    ensures r.stopped == |W.WithStatus(reg, W.Stopped)|
  {
    WorkerStatusPartition(reg);
    forall x | x in reg
      ensures W.IsStale(x, now, W.HealthyThreshold) <==> !HealthyAt(now)(x)
    {
      W.StaleIffNotHealthy(x, now, W.HealthyThreshold);
    }
    CountComplement(reg, HealthyAt(now), W.StaleAt(now, W.HealthyThreshold));
    CountMonotone(reg, HealthyAt(now), (w: W.Worker) => true);
    CountExtremes(reg, (w: W.Worker) => true);
    WorkerStats(|reg|,
                Count(reg, W.HasStatus(W.Running)),
                Count(reg, W.HasStatus(W.Paused)),
                Count(reg, W.HasStatus(W.Stopped)),
                Count(reg, HealthyAt(now)))
  }

  /** The dashboard's two worker figures agree with the worker page's. */
  lemma WorkerFiguresAgree(jobs: seq<Job>, reg: W.Registry, now: int)
    ensures GetStats(jobs, reg, now).activeWorkers == GetWorkerStats(reg, now).running
    ensures GetStats(jobs, reg, now).pausedWorkers == GetWorkerStats(reg, now).paused
  {
  }
}
