/** The financial-report service: validation of a report against the clock,
    batch creation that stops at the first failure, and the period check in
    front of the by-company query. */
module FinReport {
  import opened Common
  import opened Domain
  import opened Repository

  /** How many quarters of the current year are over: none in January to March. */
  function EndedQuarters(now: Clock): (q: int)
    ensures 0 <= q <= 3
    ensures 3 * q < now.month <= 3 * q + 3
  {
    (now.month - 1) / 3
  }

  /** Reference reading of "the quarter is over": its year is past, or its last
      month (month 3 * quarter) lies strictly before the current month. */
  predicate QuarterOver(year: int, quarter: int, now: Clock)
  {
    year < now.year || (year == now.year && 3 * quarter < now.month)
  }

  /** The checks `Create` runs before it writes, in their order; the first failed
      one is the verdict, and None means the report may be stored. */
  function Check(r: FinancialReport, now: Clock): (v: Option<Rule>)
    ensures v == None <==>
      r.revenue >= 0.0 && r.costs >= 0.0 && 1 <= r.quarter <= 4 && QuarterOver(r.year, r.quarter, now)
    ensures v == Some(NegativeRevenue) <==> r.revenue < 0.0
    ensures v == Some(NegativeCosts) <==> r.revenue >= 0.0 && r.costs < 0.0
    ensures v == Some(QuarterOutOfRange) <==>
      r.revenue >= 0.0 && r.costs >= 0.0 && !(1 <= r.quarter <= 4)
    ensures v == Some(FutureYear) <==>
      r.revenue >= 0.0 && r.costs >= 0.0 && 1 <= r.quarter <= 4 && r.year > now.year
    ensures v == Some(QuarterNotFinished) <==>
      r.revenue >= 0.0 && r.costs >= 0.0 && 1 <= r.quarter <= 4 && r.year == now.year
      && 3 * r.quarter >= now.month
  {
    if r.revenue < 0.0 then Some(NegativeRevenue)
    else if r.costs < 0.0 then Some(NegativeCosts)
    else if r.quarter > 4 || r.quarter < 1 then Some(QuarterOutOfRange)
    else if r.year > now.year then Some(FutureYear)
    else if r.year == now.year && r.quarter > EndedQuarters(now) then Some(QuarterNotFinished)
    else None
  }

  /** In January, February and March no report of the current year is accepted. */
  lemma NoReportOfCurrentYearBeforeApril(r: FinancialReport, now: Clock)
    requires now.month <= 3 && r.year == now.year
    ensures Check(r, now).Some?
  {
  }

  /** `Create`: the checks, then exactly one repository `Create` of the report. */
  function CreateReport(repo: Store<FinancialReport>, r: FinancialReport, now: Clock): (w: Written<Store<FinancialReport>>)
    ensures w.status.Ok? <==> Check(r, now) == None && repo.available && r.id !in repo.records
    ensures w.status.Ok? ==> w.store.records == repo.records[r.id := r] && w.store.order == repo.order + [r.id]
    ensures w.status.Fail? ==> w.store == repo
    ensures w.store.available == repo.available && w.store.pageSize == repo.pageSize
    ensures Check(r, now).Some? ==> w.status == Fail(Rejected(Check(r, now).value))
    ensures Check(r, now) == None && w.status.Fail? ==>
      w.status.error == Wrapped(CreatingReport, Repo(if repo.available then Duplicate else Unavailable))
  {
    CreateIfValid(repo, r.id, r, Check(r, now), CreatingReport)
  }

  /** `CreateByPeriod`: `Create` on each report in list order, stopping at the
      first failure (whose error is wrapped) and keeping what was written before.
      Every `Create` reads the clock afresh, so report i is judged against
      `nows[i]`. */
  function CreateAll(repo: Store<FinancialReport>, reports: seq<FinancialReport>, nows: seq<Clock>): (w: Written<Store<FinancialReport>>)
    requires |nows| == |reports|
    ensures w.store.available == repo.available && w.store.pageSize == repo.pageSize
    ensures WellFormed(repo) ==> WellFormed(w.store)
    ensures w.status.Fail? ==> w.status.error.Wrapped? && w.status.error.context == CreatingReportsForPeriod
    ensures w.status.Ok? && reports != [] ==> |w.store.order| > |repo.order|
    decreases |reports|
  {
    if reports == [] then Written(repo, Ok)
    else
      var first := CreateReport(repo, reports[0], nows[0]);
      if first.status.Fail? then Written(first.store, Fail(Wrapped(CreatingReportsForPeriod, first.status.error)))
      else CreateAll(first.store, reports[1..], nows[1..])
  }

  /** Once a batch has failed, reports after it are never attempted: appending
      more reports to the batch changes neither the store nor the error. */
  lemma {:induction false} CreateAllStopsAtFailure(repo: Store<FinancialReport>, a: seq<FinancialReport>,
                                                   b: seq<FinancialReport>, na: seq<Clock>, nb: seq<Clock>)
    requires |na| == |a| && |nb| == |b|
    requires CreateAll(repo, a, na).status.Fail?
    ensures CreateAll(repo, a + b, na + nb) == CreateAll(repo, a, na)
    decreases |a|
  {
    assert a != [];
    assert (a + b)[0] == a[0] && (a + b)[1..] == a[1..] + b;
    assert (na + nb)[0] == na[0] && (na + nb)[1..] == na[1..] + nb;
    var first := CreateReport(repo, a[0], na[0]);
    if first.status.Ok? {
      CreateAllStopsAtFailure(first.store, a[1..], b, na[1..], nb);
    }
  }

  /** A batch that succeeded leaves the store from which the rest continues. */
  lemma {:induction false} CreateAllContinues(repo: Store<FinancialReport>, a: seq<FinancialReport>,
                                              b: seq<FinancialReport>, na: seq<Clock>, nb: seq<Clock>)
    requires |na| == |a| && |nb| == |b|
    requires CreateAll(repo, a, na).status.Ok?
    ensures CreateAll(repo, a + b, na + nb) == CreateAll(CreateAll(repo, a, na).store, b, nb)
    decreases |a|
  {
    if a == [] {
      assert a + b == b && na + nb == nb;
    } else {
      assert (a + b)[0] == a[0] && (a + b)[1..] == a[1..] + b;
      assert (na + nb)[0] == na[0] && (na + nb)[1..] == na[1..] + nb;
      var first := CreateReport(repo, a[0], na[0]);
      CreateAllContinues(first.store, a[1..], b, na[1..], nb);
    }
  }

  /** A batch never removes or changes a report that was already stored. */
  lemma {:induction false} CreateAllKeepsStored(repo: Store<FinancialReport>, a: seq<FinancialReport>, nows: seq<Clock>)
    requires |nows| == |a|
    ensures forall id :: id in repo.records ==>
      id in CreateAll(repo, a, nows).store.records && CreateAll(repo, a, nows).store.records[id] == repo.records[id]
    decreases |a|
  {
    if a != [] {
      var first := CreateReport(repo, a[0], nows[0]);
      if first.status.Ok? {
        CreateAllKeepsStored(first.store, a[1..], nows[1..]);
      }
    }
  }

  /** A batch that succeeded passed every report's checks, each against the
      clock reading of its own `Create`, and stored every report. */
  lemma {:induction false} CreateAllStoresEach(repo: Store<FinancialReport>, a: seq<FinancialReport>, nows: seq<Clock>)
    requires |nows| == |a|
    requires CreateAll(repo, a, nows).status.Ok?
    ensures forall i :: 0 <= i < |a| ==>
      Check(a[i], nows[i]) == None && a[i].id in CreateAll(repo, a, nows).store.records
      && CreateAll(repo, a, nows).store.records[a[i].id] == a[i]
    decreases |a|
  {
    if a != [] {
      var first := CreateReport(repo, a[0], nows[0]);
      CreateAllStoresEach(first.store, a[1..], nows[1..]);
      CreateAllKeepsStored(first.store, a[1..], nows[1..]);
      forall i | 1 <= i < |a|
        ensures a[i] == a[1..][i - 1] && nows[i] == nows[1..][i - 1]
      {
      }
    }
  }

  /** The batch `a` failed at report `k`: the reports before it all succeeded,
      report k failed on the store they left, and that store and report k's
      wrapped error are the outcome. */
  ghost predicate FailedAt(repo: Store<FinancialReport>, a: seq<FinancialReport>, nows: seq<Clock>, k: int)
    requires |nows| == |a|
  {
    && 0 <= k < |a|
    && CreateAll(repo, a[..k], nows[..k]).status.Ok?
    && var before := CreateAll(repo, a[..k], nows[..k]).store;
    && var bad := CreateReport(before, a[k], nows[k]);
    && bad.status.Fail?
    && CreateAll(repo, a, nows) == Written(before, Fail(Wrapped(CreatingReportsForPeriod, bad.status.error)))
  }

  /** A failed batch failed at some report. */
  lemma {:induction false} CreateAllFailsAtSomeReport(repo: Store<FinancialReport>, a: seq<FinancialReport>, nows: seq<Clock>)
    requires |nows| == |a|
    requires CreateAll(repo, a, nows).status.Fail?
    ensures exists k :: FailedAt(repo, a, nows, k)
    decreases |a|
  {
    var first := CreateReport(repo, a[0], nows[0]);
    if first.status.Fail? {
      assert a[..0] == [] && nows[..0] == [];
      assert FailedAt(repo, a, nows, 0);
    } else {
      CreateAllFailsAtSomeReport(first.store, a[1..], nows[1..]);
      var k :| FailedAt(first.store, a[1..], nows[1..], k);
      assert a[..k + 1][0] == a[0] && a[..k + 1][1..] == a[1..][..k];
      assert nows[..k + 1][0] == nows[0] && nows[..k + 1][1..] == nows[1..][..k];
      assert a[k + 1] == a[1..][k] && nows[k + 1] == nows[1..][k];
      assert FailedAt(repo, a, nows, k + 1);
    }
  }

  /** The reports before the failing one stay stored. */
  lemma CreateAllKeepsEarlierReports(repo: Store<FinancialReport>, a: seq<FinancialReport>, nows: seq<Clock>, k: int)
    requires |nows| == |a|
    requires FailedAt(repo, a, nows, k)
    ensures forall i :: 0 <= i < k ==>
      a[i].id in CreateAll(repo, a, nows).store.records && CreateAll(repo, a, nows).store.records[a[i].id] == a[i]
  {
    CreateAllStoresEach(repo, a[..k], nows[..k]);
    assert forall i :: 0 <= i < k ==> a[..k][i] == a[i];
  }

  /** (y1, q1) comes strictly before (y2, q2), year first, then quarter. */
  predicate Before(y1: int, q1: int, y2: int, q2: int)
  {
    y1 < y2 || (y1 == y2 && q1 < q2)
  }

  /** The report's quarter lies within the period, both ends included. */
  predicate InPeriod(r: FinancialReport, p: Period)
  {
    !Before(r.year, r.quarter, p.startYear, p.startQuarter) && !Before(p.endYear, p.endQuarter, r.year, r.quarter)
  }

  /** Repository `GetByCompany`: the stored reports of a company within a period. */
  function ReportsOf(repo: Store<FinancialReport>, companyId: Id, period: Period): Result<ReportsByPeriod>
  {
    if !repo.available then Failure(Repo(Unavailable))
    else Success(ReportsByPeriod(Filter(Listed(repo), (r: FinancialReport) => r.companyId == companyId && InPeriod(r, period))))
  }

  class FinReportService {
    var repo: Store<FinancialReport>

    /** The repository's bookkeeping is consistent; every method keeps it so. */
    predicate Valid()
      reads this
    {
      WellFormed(repo)
    }

    constructor (repo: Store<FinancialReport>)
      requires WellFormed(repo)
      ensures Valid()
      ensures this.repo == repo
    {
      this.repo := repo;
    }

    method Create(report: FinancialReport, now: Clock) returns (status: Status)
      requires Valid()
      modifies this
      ensures Valid()
      ensures Written(repo, status) == CreateReport(old(repo), report, now)
    {
      var verdict := Check(report, now);
      if verdict.Some? {
        return Fail(Rejected(verdict.value));
      }
      var w := Insert(repo, report.id, report);
      repo := w.store;
      if w.status.Fail? {
        return Fail(Wrapped(CreatingReport, w.status.error));
      }
      return Ok;
    }

    /** `nows[i]` is the clock reading taken by the `Create` of report i. */
    method CreateByPeriod(batch: ReportsByPeriod, nows: seq<Clock>) returns (status: Status)
      requires Valid()
      requires |nows| == |batch.reports|
      modifies this
      ensures Valid()
      ensures Written(repo, status) == CreateAll(old(repo), batch.reports, nows)
    {
      var reports := batch.reports;
      var i := 0;
      while i < |reports|
        invariant 0 <= i <= |reports|
        invariant Valid()
        invariant CreateAll(old(repo), reports, nows) == CreateAll(repo, reports[i..], nows[i..])
      {
        assert reports[i..][0] == reports[i] && reports[i..][1..] == reports[i + 1..];
        assert nows[i..][0] == nows[i] && nows[i..][1..] == nows[i + 1..];
        status := Create(reports[i], nows[i]);
        if status.Fail? {
          return Fail(Wrapped(CreatingReportsForPeriod, status.error));
        }
        i := i + 1;
      }
      assert reports[i..] == [] && nows[i..] == [];
      return Ok;
    }

    function GetById(id: Id): (r: Result<FinancialReport>)
      reads this
      ensures r.Success? <==> repo.available && id in repo.records
      ensures r.Success? ==> r.value == repo.records[id]
      ensures r.Failure? ==> r.error == Wrapped(GettingReportById, Repo(if repo.available then NotFound else Unavailable))
    {
      Wrap(GettingReportById, Get(repo, id))
    }

    /** Rejects a period that ends before it starts; an equal start and end is
        accepted and the quarters themselves are not range-checked. */
    function GetByCompany(companyId: Id, period: Period): (r: Result<ReportsByPeriod>)
      requires Valid()
      reads this
      ensures r == Failure(Rejected(PeriodReversed)) <==>
        Before(period.endYear, period.endQuarter, period.startYear, period.startQuarter)
      ensures r.Success? <==>
        repo.available && !Before(period.endYear, period.endQuarter, period.startYear, period.startQuarter)
      ensures r.Failure? && r.error != Rejected(PeriodReversed) ==>
        r.error == Wrapped(GettingReportsByCompany, Repo(Unavailable))
      ensures r.Success? ==> forall i :: 0 <= i < |r.value.reports| ==>
        var x := r.value.reports[i]; x in repo.records.Values && x.companyId == companyId && InPeriod(x, period)
      ensures r.Success? ==> forall id :: id in repo.records ==>
        var x := repo.records[id]; x.companyId == companyId && InPeriod(x, period) ==> x in r.value.reports
    {
      ListedHoldsStored(repo);
      if period.startYear > period.endYear
         || (period.startYear == period.endYear && period.startQuarter > period.endQuarter)
      then Failure(Rejected(PeriodReversed))
      else Wrap(GettingReportsByCompany, ReportsOf(repo, companyId, period))
    }

    method Update(report: FinancialReport) returns (status: Status)
      requires Valid()
      modifies this
      ensures Valid()
      ensures status.Ok? <==> old(repo).available && report.id in old(repo).records
      ensures status.Ok? ==> repo == old(repo).(records := old(repo).records[report.id := report])
      ensures status.Fail? ==> repo == old(repo)
      ensures status.Fail? ==>
        status.error == Wrapped(UpdatingReport, Repo(if old(repo).available then NotFound else Unavailable))
    {
      var w := Replace(repo, report.id, report);
      repo := w.store;
      status := WrapWrite(UpdatingReport, w).status;
    }

    method DeleteById(id: Id) returns (status: Status)
      requires Valid()
      modifies this
      ensures Valid()
      ensures status.Ok? <==> old(repo).available && id in old(repo).records
      ensures status.Ok? ==> repo == old(repo).(records := old(repo).records - {id}, order := Without(old(repo).order, id))
      ensures status.Fail? ==> repo == old(repo)
      ensures status.Fail? ==>
        status.error == Wrapped(DeletingReport, Repo(if old(repo).available then NotFound else Unavailable))
    {
      var w := Remove(repo, id);
      repo := w.store;
      status := WrapWrite(DeletingReport, w).status;
    }
  }
}
