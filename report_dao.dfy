// The read side of the report table: lookups, the "exactly one COMPLETED / CLAIMED report"
// checks, the active-report lookup and the criteria search sorted by report date.
// The upsert lives with the store (Store.Database).

module ReportDao {
  import opened Wrappers
  import opened Entities
  import opened Collections

  /** Hibernate's session.get by primary key. */
  function GetRadiologyReport(reports: seq<RadiologyReport>, reportId: nat): (r: Option<RadiologyReport>)
    ensures r.Some? ==> r.value in reports && r.value.reportId == Some(reportId)
    ensures r.None? <==> forall i :: 0 <= i < |reports| ==> reports[i].reportId != Some(reportId)
  {
    match FirstIndex(reports, WithReportId(reportId))
    case None => None
    case Some(i) => Some(reports[i])
  }

  function WithReportId(reportId: nat): (r: RadiologyReport -> bool) {
    (x: RadiologyReport) => x.reportId == Some(reportId)
  }

  function WithUuid(uuid: string): (r: RadiologyReport -> bool) {
    (x: RadiologyReport) => x.uuid == uuid
  }

  /** `uniqueResult()` of the criteria uuid = `uuid`. */
  function GetRadiologyReportByUuid(reports: seq<RadiologyReport>, uuid: string): (r: Lookup<RadiologyReport>)
    ensures r.Absent? <==> forall i :: 0 <= i < |reports| ==> reports[i].uuid != uuid
    ensures r.Unique? <==> ExactlyOne(reports, WithUuid(uuid))
    ensures r.Unique? ==> r.value in reports && r.value.uuid == uuid
  {
    UniqueLookupIff(reports, WithUuid(uuid));
    UniqueResult(Filter(reports, WithUuid(uuid)))
  }

  /** The criteria radiologyOrder = `orderId` and reportStatus = `status`. */
  function OfOrderWithStatus(orderId: nat, status: ReportStatus): (r: RadiologyReport -> bool) {
    (x: RadiologyReport) => x.orderId == orderId && x.status == status
  }

  /** The reports of order `orderId` in status `status`, in table order; never null. */
  function GetRadiologyReportsByRadiologyOrderAndRadiologyReportStatus(
    reports: seq<RadiologyReport>, orderId: nat, status: ReportStatus): (r: seq<RadiologyReport>)
    ensures forall x :: x in r <==> x in reports && x.orderId == orderId && x.status == status
    ensures IsSubsequence(r, reports)
    ensures forall x :: multiset(r)[x] == if x.orderId == orderId && x.status == status then multiset(reports)[x] else 0
  {
    var p := OfOrderWithStatus(orderId, status);
    FilterIsSubsequence(reports, p);
    forall x {
      FilterMultiplicity(reports, p, x);
    }
    Filter(reports, p)
  }

  /** True iff exactly one report of the order is COMPLETED; none, or two or more, give false. */
  function HasRadiologyOrderCompletedRadiologyReport(reports: seq<RadiologyReport>, orderId: nat): (b: bool)
    ensures b <==> ExactlyOne(reports, OfOrderWithStatus(orderId, ReportStatus.COMPLETED))
  {
    FilterLengthOneIff(reports, OfOrderWithStatus(orderId, ReportStatus.COMPLETED));
    |GetRadiologyReportsByRadiologyOrderAndRadiologyReportStatus(reports, orderId, ReportStatus.COMPLETED)| == 1
  }

  /** True iff exactly one report of the order is CLAIMED. */
  function HasRadiologyOrderClaimedRadiologyReport(reports: seq<RadiologyReport>, orderId: nat): (b: bool)
    ensures b <==> ExactlyOne(reports, OfOrderWithStatus(orderId, ReportStatus.CLAIMED))
  {
    FilterLengthOneIff(reports, OfOrderWithStatus(orderId, ReportStatus.CLAIMED));
    |GetRadiologyReportsByRadiologyOrderAndRadiologyReportStatus(reports, orderId, ReportStatus.CLAIMED)| == 1
  }

  /** Two COMPLETED reports of one order make the completed check false. */
  lemma TwoCompletedReportsAreNotCompleted(reports: seq<RadiologyReport>, orderId: nat, i: nat, j: nat)
    requires i < j < |reports|
    requires reports[i].orderId == orderId && reports[i].status == ReportStatus.COMPLETED
    requires reports[j].orderId == orderId && reports[j].status == ReportStatus.COMPLETED
    ensures !HasRadiologyOrderCompletedRadiologyReport(reports, orderId)
  {
    var p := OfOrderWithStatus(orderId, ReportStatus.COMPLETED);
    assert p(reports[i]) && p(reports[j]);
  }

  /** The criteria radiologyOrder = `orderId` and not (reportStatus = DISCONTINUED). */
  function ActiveOfOrder(orderId: nat): (r: RadiologyReport -> bool) {
    (x: RadiologyReport) => x.orderId == orderId && x.status != ReportStatus.DISCONTINUED
  }

  /**
   * `list().get(0)` of the active reports of the order: the first one in table order.  With no
   * active report, `get(0)` throws.
   */
  function GetActiveRadiologyReportByRadiologyOrder(reports: seq<RadiologyReport>, orderId: nat)
    : (r: Result<RadiologyReport, Fault>)
    ensures r.Failure? <==> forall i :: 0 <= i < |reports| ==>
              !(reports[i].orderId == orderId && reports[i].status != ReportStatus.DISCONTINUED)
    ensures r.Failure? ==> r.error == IndexOutOfBounds
    ensures r.Success? ==> r.value.orderId == orderId && r.value.status != ReportStatus.DISCONTINUED
    ensures r.Success? ==>
              (exists i :: 0 <= i < |reports| && reports[i] == r.value &&
                 forall j :: 0 <= j < i ==> !(reports[j].orderId == orderId && reports[j].status != ReportStatus.DISCONTINUED))
  {
    var active := Filter(reports, ActiveOfOrder(orderId));
    FilterEmptyIff(reports, ActiveOfOrder(orderId));
    if active == [] then Failure(IndexOutOfBounds)
    else
      FilterHeadIsFirstMatch(reports, ActiveOfOrder(orderId));
      Success(active[0])
  }

  /** getRadiologyReports' search criteria; a None field leaves that side unconstrained. */
  datatype RadiologyReportSearchCriteria = RadiologyReportSearchCriteria(
    includeDiscontinued: bool,
    fromDate: Option<Date>,
    toDate: Option<Date>,
    principalResultsInterpreter: Option<ProviderId>,
    status: Option<ReportStatus>)

  /**
   * The conjunction the criteria build.  A bound on the report date excludes a report that has
   * no report date, as an SQL comparison with NULL does.
   */
  predicate MatchesCriteria(c: RadiologyReportSearchCriteria, x: RadiologyReport) {
    && (c.includeDiscontinued || x.status != ReportStatus.DISCONTINUED)
    && (c.fromDate.Some? ==> x.reportDate.Some? && x.reportDate.value >= c.fromDate.value)
    && (c.toDate.Some? ==> x.reportDate.Some? && x.reportDate.value <= c.toDate.value)
    && (c.principalResultsInterpreter.Some? ==> x.principalResultsInterpreter == c.principalResultsInterpreter)
    && (c.status.Some? ==> x.status == c.status.value)
  }

  /** `Order.asc("reportDate")`, with reports that have no date first (NULLs sort lowest). */
  predicate ReportDateLe(a: RadiologyReport, b: RadiologyReport) {
    a.reportDate.None? || (b.reportDate.Some? && a.reportDate.value <= b.reportDate.value)
  }

  predicate SortedByReportDate(s: seq<RadiologyReport>) {
    forall i, j :: 0 <= i < j < |s| ==> ReportDateLe(s[i], s[j])
  }

  /** Insert `x` into the sorted `s`, after every report not later than it. */
  function InsertByReportDate(x: RadiologyReport, s: seq<RadiologyReport>): (r: seq<RadiologyReport>)
    requires SortedByReportDate(s)
    ensures SortedByReportDate(r)
    ensures multiset(r) == multiset(s) + multiset{x}
    ensures forall k :: 0 <= k < |r| ==> r[k] == x || r[k] in s
  {
    if s == [] then [x]
    else if ReportDateLe(x, s[0]) then [x] + s
    else
      var rest := InsertByReportDate(x, s[1..]);
      assert s == [s[0]] + s[1..];
      assert forall k :: 0 <= k < |rest| ==> ReportDateLe(s[0], rest[k]);
      [s[0]] + rest
  }

  function SortByReportDate(s: seq<RadiologyReport>): (r: seq<RadiologyReport>)
    ensures SortedByReportDate(r)
    ensures multiset(r) == multiset(s)
  {
    if s == [] then []
    else
      assert s == [s[0]] + s[1..];
      InsertByReportDate(s[0], SortByReportDate(s[1..]))
  }

  function MatchingCriteria(c: RadiologyReportSearchCriteria): (r: RadiologyReport -> bool) {
    (x: RadiologyReport) => MatchesCriteria(c, x)
  }

  /**
   * The reports matching every given criterion, sorted by report date ascending: exactly the
   * matching reports, each as often as it is stored.
   */
  function GetRadiologyReports(reports: seq<RadiologyReport>, c: RadiologyReportSearchCriteria)
    : (r: seq<RadiologyReport>)
    ensures SortedByReportDate(r)
    ensures forall x :: multiset(r)[x] == if MatchesCriteria(c, x) then multiset(reports)[x] else 0
    ensures forall x :: x in r <==> x in reports && MatchesCriteria(c, x)
  {
    var matching := Filter(reports, MatchingCriteria(c));
    forall x {
      FilterMultiplicity(reports, MatchingCriteria(c), x);
    }
    SortByReportDate(matching)
  }

  /** Criteria that constrain nothing but include discontinued reports return every report. */
  lemma UnconstrainedSearchReturnsAll(reports: seq<RadiologyReport>)
    ensures multiset(GetRadiologyReports(reports, RadiologyReportSearchCriteria(true, None, None, None, None)))
         == multiset(reports)
  {
    var r := GetRadiologyReports(reports, RadiologyReportSearchCriteria(true, None, None, None, None));
    assert forall x :: multiset(r)[x] == multiset(reports)[x];
  }

  /** Without includeDiscontinued, no DISCONTINUED report is returned, whatever the other criteria. */
  lemma DiscontinuedExcludedByDefault(reports: seq<RadiologyReport>, c: RadiologyReportSearchCriteria)
    requires !c.includeDiscontinued
    ensures forall x :: x in GetRadiologyReports(reports, c) ==> x.status != ReportStatus.DISCONTINUED
  {
  }

  /** A date window [from, to] returns exactly the dated reports within it, bounds included. */
  lemma DateWindowIsInclusive(reports: seq<RadiologyReport>, from: Date, to: Date, x: RadiologyReport)
    requires x in reports && x.status != ReportStatus.DISCONTINUED
    ensures x in GetRadiologyReports(reports, RadiologyReportSearchCriteria(false, Some(from), Some(to), None, None))
        <==> x.reportDate.Some? && from <= x.reportDate.value <= to
  {
  }
}
