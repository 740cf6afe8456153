/** `watchtower:prune`: retention-based deletion of finished job records, or, with
    `--all` and a confirmation, of every record. */
module Prune {
  import opened Prelude
  import opened Decimal
  import opened JobModel

  const DefaultCompletedRetention := 7
  const DefaultFailedRetention := 30
  const SecondsPerDay := 86400

  /** A retention key of the configuration: absent (the call's default applies) or set,
      possibly to null ("keep forever"). */
  datatype ConfigEntry = Absent | Configured(days: Option<int>)

  /** `$this->option(...) ?? config(..., $default)`, then `(int)`: a given option wins
      over the configuration, an absent key falls back to the default, and a configured
      null means no retention at all. */
  function Retention(option: Option<string>, config: ConfigEntry, default: int): (r: Option<int>)
    ensures option.Some? ==> r == Some(ParseInt(option.value))
    ensures option.None? && config.Absent? ==> r == Some(default)
    ensures option.None? && config.Configured? ==> r == config.days
  {
    match option
    case Some(s) => Some(ParseInt(s))
    case None =>
      match config
      case Absent => Some(default)
      case Configured(d) => d
  }

  /** A decimal option reads back as the number it spells, whatever the configuration. */
  lemma OptionOverridesConfig(days: int, config: ConfigEntry, default: int)
    ensures Retention(Some(IntToString(days)), config, default) == Some(days)
  {
    IntRoundTrip(days);
  }

  /** `now()->subDays($days)`. */
  function Cutoff(now: int, days: int): int {
    now - days * SecondsPerDay
  }

  /** The rows one retention rule deletes: status `s`, finished strictly before the cutoff.
      A null `completed_at` never compares less than anything, and no retention deletes
      nothing. */
  function ExpiredFor(s: JobStatus, retention: Option<int>, now: int): Job -> bool {
    (j: Job) => retention.Some? && j.status == s && j.completedAt.Some? &&
                j.completedAt.value < Cutoff(now, retention.value)
  }

  function Survives(s: JobStatus, retention: Option<int>, now: int): Job -> bool {
    (j: Job) => !ExpiredFor(s, retention, now)(j)
  }

  /** One `withStatus(...)->where('completed_at', '<', ...)->delete()`: the surviving table
      and the number of rows deleted. */
  datatype Deleted = Deleted(table: JobTable, count: nat)

  function DeleteExpired(t: JobTable, s: JobStatus, retention: Option<int>, now: int)
    : (r: Deleted)
    requires WellFormed(t)
    ensures WellFormed(r.table) && r.table.nextId == t.nextId
    ensures forall j :: j in r.table.rows <==> j in t.rows && !ExpiredFor(s, retention, now)(j)
    ensures r.count == Count(t.rows, ExpiredFor(s, retention, now))
    ensures |r.table.rows| + r.count == |t.rows|
    ensures retention.None? ==> r.count == 0 && r.table == t
  {
    var rows := Filter(t.rows, Survives(s, retention, now));
    FilterWellFormed(t, Survives(s, retention, now));
    CountComplement(t.rows, ExpiredFor(s, retention, now), Survives(s, retention, now));
    if retention.None? then
      CountExtremes(t.rows, ExpiredFor(s, retention, now));
      FilterKeepsAll(t.rows, Survives(s, retention, now));
      Deleted(t, 0)
    else
      Deleted(JobTable(rows, t.nextId), Count(t.rows, ExpiredFor(s, retention, now)))
  }

  /** A selection that rejects nothing is the identity. */
  lemma {:induction false} FilterKeepsAll(s: seq<Job>, p: Job -> bool)
    requires forall x :: x in s ==> p(x)
    ensures Filter(s, p) == s
  {
    if |s| > 0 {
      FilterKeepsAll(s[1..], p);
      assert s == [s[0]] + s[1..];
    }
  }

  datatype Report = Report(table: JobTable, completedDeleted: nat, failedDeleted: nat) {
    /** The total the command prints. */
    function Total(): nat { completedDeleted + failedDeleted }
  }

  /** The retention branch of `handle`: completed rows past their retention, then failed
      rows past theirs. Pending and processing rows are never deleted, and the printed
      total is exactly the number of rows that disappeared. */
  function PruneByRetention(t: JobTable, completed: Option<int>, failed: Option<int>, now: int)
    : (r: Report)
    requires WellFormed(t)
    ensures WellFormed(r.table) && r.table.nextId == t.nextId
    ensures forall j :: j in r.table.rows <==>
              j in t.rows && !ExpiredFor(Completed, completed, now)(j) &&
              !ExpiredFor(Failed, failed, now)(j)
    ensures r.completedDeleted == Count(t.rows, ExpiredFor(Completed, completed, now))
    ensures r.failedDeleted == Count(t.rows, ExpiredFor(Failed, failed, now))
    ensures |r.table.rows| + r.Total() == |t.rows|
    ensures forall j :: j in t.rows && (IsPending(j) || IsProcessing(j)) ==> j in r.table.rows
  {
    var c := DeleteExpired(t, Completed, completed, now);
    var f := DeleteExpired(c.table, Failed, failed, now);
    CountAfterFilter(t.rows, Survives(Completed, completed, now), ExpiredFor(Failed, failed, now));
    Report(f.table, c.count, f.count)
  }

  /** `pruneAll`: a declined confirmation deletes nothing; an accepted one truncates the
      table, which also restarts its primary key. */
  function PruneAll(t: JobTable, confirmed: bool): (r: JobTable)
    ensures !confirmed ==> r == t
    ensures confirmed ==> r.rows == [] && WellFormed(r)
  {
    if confirmed then JobTable([], 1) else t
  }

  datatype Options = Options(all: bool, completed: Option<string>, failed: Option<string>)

  datatype RetentionConfig = RetentionConfig(completed: ConfigEntry, failed: ConfigEntry)

  datatype Outcome = AllPruned(table: JobTable) | RetentionPruned(report: Report)

  /** `handle`. `confirmed` is the operator's answer to the prompt. */
  function Handle(t: JobTable, opts: Options, cfg: RetentionConfig, confirmed: bool, now: int)
    : (r: Outcome)
    requires WellFormed(t)
    ensures opts.all <==> r.AllPruned?
    ensures r.AllPruned? ==> r.table == PruneAll(t, confirmed)
    ensures r.RetentionPruned? ==>
              var cr := Retention(opts.completed, cfg.completed, DefaultCompletedRetention);
              var fr := Retention(opts.failed, cfg.failed, DefaultFailedRetention);
              r.report.completedDeleted == Count(t.rows, ExpiredFor(Completed, cr, now)) &&
              r.report.failedDeleted == Count(t.rows, ExpiredFor(Failed, fr, now)) &&
              |r.report.table.rows| + r.report.Total() == |t.rows| &&
              WellFormed(r.report.table)
  {
    if opts.all then AllPruned(PruneAll(t, confirmed))
    else
      RetentionPruned(PruneByRetention(
        t, Retention(opts.completed, cfg.completed, DefaultCompletedRetention),
        Retention(opts.failed, cfg.failed, DefaultFailedRetention), now))
  }
}
