// The order search portlet (web.controller.PortletsController): dateFilter, which narrows the
// orders of the patients matching a query to a window of start dates, and ordersTable, which
// builds the seven parallel columns shown for the studies of those orders.

module Portlets {
  import opened Wrappers
  import opened Entities
  import opened Collections
  import StudyDao

  /** Java's Boolean.toString. */
  function BoolText(b: bool): (r: string) {
    if b then "true" else "false"
  }

  /** Both dates are given and the start lies strictly after the end (Date.after). */
  predicate Crossed(start: Option<Date>, final: Option<Date>) {
    start.Some? && final.Some? && start.value > final.value
  }

  /**
   * The test dateFilter applies to one order.  Without bounds every order passes; with a bound,
   * the order needs a start date, and each given bound is inclusive.
   */
  predicate InWindow(o: RadiologyOrder, start: Option<Date>, final: Option<Date>) {
    if start.None? && final.None? then true
    else
      && o.startDate.Some?
      && (start.None? || o.startDate.value >= start.value)
      && (final.None? || o.startDate.value <= final.value)
  }

  function Kept(start: Option<Date>, final: Option<Date>): (r: RadiologyOrder -> bool) {
    (o: RadiologyOrder) => InWindow(o, start, final)
  }

  /** What dateFilter returns for the pre-matched orders: None stands for Java's null. */
  function DateFilterResult(preMatched: seq<RadiologyOrder>, start: Option<Date>, final: Option<Date>)
    : (r: Option<seq<RadiologyOrder>>)
    ensures r.None? <==> Crossed(start, final)
    ensures r.Some? ==> |r.value| <= |preMatched|
  {
    if Crossed(start, final) then None else Some(Filter(preMatched, Kept(start, final)))
  }

  /** Without bounds every pre-matched order comes back, in its order. */
  lemma NoBoundsReturnsAll(preMatched: seq<RadiologyOrder>)
    ensures DateFilterResult(preMatched, None, None) == Some(preMatched)
  {
    FilterKeepsAll(preMatched, Kept(None, None));
  }

  /**
   * An order is returned exactly when it was pre-matched and its start date is known and within
   * every given bound; an order without a start date is dropped as soon as one bound is given.
   */
  lemma DateFilterMembership(preMatched: seq<RadiologyOrder>, start: Option<Date>, final: Option<Date>,
                             o: RadiologyOrder)
    requires !Crossed(start, final) && (start.Some? || final.Some?)
    ensures o in DateFilterResult(preMatched, start, final).value <==>
              && o in preMatched && o.startDate.Some?
              && (start.None? || start.value <= o.startDate.value)
              && (final.None? || o.startDate.value <= final.value)
  {
    assert Kept(start, final)(o) == InWindow(o, start, final);
  }

  /** The result keeps the pre-matched orders' relative order. */
  lemma DateFilterIsSubsequence(preMatched: seq<RadiologyOrder>, start: Option<Date>, final: Option<Date>)
    requires !Crossed(start, final)
    ensures IsSubsequence(DateFilterResult(preMatched, start, final).value, preMatched)
  {
    FilterIsSubsequence(preMatched, Kept(start, final));
  }

  /** The two-sided window is the start-only window followed by the final-only one. */
  lemma {:induction false} WindowIsBothOneSidedWindows(preMatched: seq<RadiologyOrder>, start: Date, final: Date)
    ensures Filter(preMatched, Kept(Some(start), Some(final)))
         == Filter(Filter(preMatched, Kept(Some(start), None)), Kept(None, Some(final)))
    decreases |preMatched|
  {
    if preMatched != [] {
      WindowIsBothOneSidedWindows(preMatched[1..], start, final);
      var first := preMatched[0];
      var fromStart := Filter(preMatched, Kept(Some(start), None));
      if Kept(Some(start), None)(first) {
        assert fromStart == [first] + Filter(preMatched[1..], Kept(Some(start), None));
        assert fromStart[0] == first && fromStart[1..] == Filter(preMatched[1..], Kept(Some(start), None));
      } else {
        assert fromStart == Filter(preMatched[1..], Kept(Some(start), None));
      }
    }
  }

  /**
   * The loops of dateFilter for a window with at least one bound: walk the pre-matched orders and
   * append each one whose start date is known and within the bounds.
   */
  method MatchOrders(preMatched: seq<RadiologyOrder>, start: Option<Date>, final: Option<Date>)
    returns (matched: seq<RadiologyOrder>)
    requires start.Some? || final.Some?
    ensures matched == Filter(preMatched, Kept(start, final))
  {
    matched := [];
    for i := 0 to |preMatched|
      invariant matched == Filter(preMatched[..i], Kept(start, final))
    {
      var o := preMatched[i];
      assert preMatched[..i + 1] == preMatched[..i] + [o];
      FilterAppend(preMatched[..i], o, Kept(start, final));
      if o.startDate.Some? && (start.None? || o.startDate.value >= start.value)
         && (final.None? || o.startDate.value <= final.value) {
        matched := matched + [o];
      }
    }
    assert preMatched[..|preMatched|] == preMatched;
  }

  /** The seven lists ordersTable shows, one entry per study in each. */
  datatype Columns = Columns(
    statuses: seq<string>,
    priorities: seq<string>,
    schedulers: seq<string>,
    performings: seq<string>,
    readings: seq<string>,
    modalities: seq<string>,
    mwlStatuses: seq<string>)

  function EmptyColumns(): (r: Columns) {
    Columns([], [], [], [], [], [], [])
  }

  /**
   * The texts ordersTable takes from a study through code that is not part of this model: the
   * status column for the authenticated user, the scheduler, performing and reading physicians,
   * and a modality's full name.
   */
  datatype StudyText = StudyText(
    status: RadiologyStudy -> string,
    scheduler: RadiologyStudy -> string,
    performing: RadiologyStudy -> string,
    reading: RadiologyStudy -> string,
    modalityName: string -> string)

  /** The non-null entries of a list that may hold nulls, in order. */
  function Present(studies: seq<Option<RadiologyStudy>>): (r: seq<RadiologyStudy>)
    ensures |r| <= |studies|
    ensures forall s :: s in r <==> Some(s) in studies
  {
    if studies == [] then []
    else
      var last := studies[|studies| - 1];
      assert studies == studies[..|studies| - 1] + [last];
      Present(studies[..|studies| - 1]) + (if last.Some? then [last.value] else [])
  }

  /** The fields the column loop dereferences are set: the priority and the modality. */
  predicate Renderable(s: RadiologyStudy) {
    s.priority.Some? && s.modality.Some?
  }

  predicate AllRenderable(studies: seq<RadiologyStudy>) {
    forall i :: 0 <= i < |studies| ==> Renderable(studies[i])
  }

  /** The entries one study adds, one to each column. */
  function Row(s: RadiologyStudy, text: StudyText): (r: Columns)
    requires Renderable(s)
  {
    Columns([text.status(s)], [PriorityName(s.priority.value)], [text.scheduler(s)], [text.performing(s)],
            [text.reading(s)], [text.modalityName(s.modality.value)], [MwlStatusName(s.mwlStatus)])
  }

  function Append(a: Columns, b: Columns): (r: Columns) {
    Columns(a.statuses + b.statuses, a.priorities + b.priorities, a.schedulers + b.schedulers,
            a.performings + b.performings, a.readings + b.readings, a.modalities + b.modalities,
            a.mwlStatuses + b.mwlStatuses)
  }

  /** The columns for `studies`, built one study at a time. */
  function ColumnsOf(studies: seq<RadiologyStudy>, text: StudyText): (r: Columns)
    requires AllRenderable(studies)
  {
    if studies == [] then EmptyColumns()
    else Append(ColumnsOf(studies[..|studies| - 1], text), Row(studies[|studies| - 1], text))
  }

  /** All seven columns have one entry per study. */
  lemma {:induction false} ColumnsHaveOneEntryPerStudy(studies: seq<RadiologyStudy>, text: StudyText)
    requires AllRenderable(studies)
    ensures var c := ColumnsOf(studies, text);
            && |c.statuses| == |c.priorities| == |c.schedulers| == |c.performings| == |studies|
            && |c.readings| == |c.modalities| == |c.mwlStatuses| == |studies|
    decreases |studies|
  {
    if studies != [] {
      ColumnsHaveOneEntryPerStudy(studies[..|studies| - 1], text);
    }
  }

  /** Entry k of each column describes study k: the seven lists stay parallel. */
  lemma {:induction false} ColumnsAreParallel(studies: seq<RadiologyStudy>, text: StudyText, k: nat)
    requires AllRenderable(studies) && k < |studies|
    ensures var c := ColumnsOf(studies, text);
            && k < |c.statuses| && c.statuses[k] == text.status(studies[k])
            && k < |c.priorities| && c.priorities[k] == PriorityName(studies[k].priority.value)
            && k < |c.schedulers| && c.schedulers[k] == text.scheduler(studies[k])
            && k < |c.performings| && c.performings[k] == text.performing(studies[k])
            && k < |c.readings| && c.readings[k] == text.reading(studies[k])
            && k < |c.modalities| && c.modalities[k] == text.modalityName(studies[k].modality.value)
            && k < |c.mwlStatuses| && c.mwlStatuses[k] == MwlStatusName(studies[k].mwlStatus)
    decreases |studies|
  {
    var n := |studies| - 1;
    var prefix := studies[..n];
    ColumnsHaveOneEntryPerStudy(prefix, text);
    assert ColumnsOf(studies, text) == Append(ColumnsOf(prefix, text), Row(studies[n], text));
    if k < n {
      assert prefix[k] == studies[k];
      ColumnsAreParallel(prefix, text, k);
    }
  }

  /**
   * The column loop of ordersTable: every non-null study adds one entry to each of the seven
   * lists, and a null entry adds nothing.  A study without a priority or a modality stops the
   * loop with a null dereference.
   */
  method BuildColumns(studies: seq<Option<RadiologyStudy>>, text: StudyText) returns (r: Result<Columns, Fault>)
    ensures r.Success? <==> AllRenderable(Present(studies))
    ensures r.Failure? ==> r.error == NullDereference
    ensures r.Success? ==> r.value == ColumnsOf(Present(studies), text)
  {
    var columns := EmptyColumns();
    for i := 0 to |studies|
      invariant AllRenderable(Present(studies[..i]))
      invariant columns == ColumnsOf(Present(studies[..i]), text)
    {
      PresentStep(studies, i);
      match studies[i]
      case None =>
        assert Present(studies[..i]) + [] == Present(studies[..i]);
      case Some(study) =>
        if study.priority.None? || study.modality.None? {
          PresentExtends(studies, i + 1);
          return Failure(NullDereference);
        }
        ColumnsStep(Present(studies[..i]), study, text);
        columns := Append(columns, Row(study, text));
    }
    assert studies[..|studies|] == studies;
    r := Success(columns);
  }

  /** One more entry of the list adds its study, when it is not null, at the end. */
  lemma PresentStep(studies: seq<Option<RadiologyStudy>>, i: nat)
    requires i < |studies|
    ensures Present(studies[..i + 1]) == Present(studies[..i]) + (if studies[i].Some? then [studies[i].value] else [])
  {
    assert studies[..i + 1][..i] == studies[..i];
  }

  /** Adding a study with a modality adds its row to the columns. */
  lemma ColumnsStep(studies: seq<RadiologyStudy>, s: RadiologyStudy, text: StudyText)
    requires AllRenderable(studies) && Renderable(s)
    ensures AllRenderable(studies + [s])
    ensures ColumnsOf(studies + [s], text) == Append(ColumnsOf(studies, text), Row(s, text))
  {
    assert (studies + [s])[..|studies|] == studies;
  }

  /** The non-null entries of a prefix come first among those of the whole list. */
  lemma {:induction false} PresentExtends(studies: seq<Option<RadiologyStudy>>, n: nat)
    requires n <= |studies|
    ensures |Present(studies[..n])| <= |Present(studies)|
    ensures Present(studies[..n]) == Present(studies)[..|Present(studies[..n])|]
    ensures !AllRenderable(Present(studies[..n])) ==> !AllRenderable(Present(studies))
    decreases |studies| - n
  {
    if n < |studies| {
      PresentExtends(studies, n + 1);
      assert studies[..n + 1][..n] == studies[..n];
    } else {
      assert studies[..n] == studies;
    }
  }

  /** A list of studies as the list that may hold nulls which the column loop walks. */
  function Lift(studies: seq<RadiologyStudy>): (r: seq<Option<RadiologyStudy>>)
    ensures |r| == |studies| && forall i :: 0 <= i < |r| ==> r[i] == Some(studies[i])
  {
    seq(|studies|, i requires 0 <= i < |studies| => Some(studies[i]))
  }

  /** The ids of the orders that have one, in order. */
  function OrderIdsOf(orders: seq<RadiologyOrder>): (r: seq<nat>)
    ensures forall id :: id in r <==> exists o :: o in orders && o.orderId == Some(id)
  {
    if orders == [] then []
    else
      assert forall o :: o in orders <==> o == orders[0] || o in orders[1..];
      (if orders[0].orderId.Some? then [orders[0].orderId.value] else []) + OrderIdsOf(orders[1..])
  }

  /** What ordersTable hands to its view. */
  datatype OrdersView = OrdersView(
    orders: seq<RadiologyOrder>,
    columns: Columns,
    matchedOrdersSize: nat,
    error: Option<string>,
    obsId: bool)

  /**
   * ordersTable as written: when dateFilter answers null for a crossed window, that null goes on
   * to getStudiesByOrders, to mav.addObject and to matchedOrders.size(), and the request fails
   * instead of showing "crossDate".  `readingPhysician` is whether the user has that role.
   */
  function OrdersTableAsWritten(studies: seq<RadiologyStudy>, preMatched: seq<RadiologyOrder>,
                                start: Option<Date>, final: Option<Date>, text: StudyText, readingPhysician: bool)
    : (r: Result<OrdersView, Fault>)
    ensures Crossed(start, final) ==> r == Failure(NullOrderList)
  {
    match DateFilterResult(preMatched, start, final)
    case None => Failure(NullOrderList)
    case Some(matched) =>
      var found := Present(Lift(StudyDao.GetRadiologyStudiesByRadiologyOrders(studies, OrderIdsOf(matched))));
      if AllRenderable(found) then
        Success(OrdersView(matched, ColumnsOf(found, text), |matched|, None, readingPhysician))
      else Failure(NullDereference)
  }

  /** A crossed window, such as a start one day after the end, fails the whole request. */
  lemma CrossDateIsNeverShown(studies: seq<RadiologyStudy>, preMatched: seq<RadiologyOrder>, text: StudyText)
    ensures OrdersTableAsWritten(studies, preMatched, Some(86400000), Some(0), text, false) == Failure(NullOrderList)
  {
  }

  class PortletsController {
    /** The debug trace of the last search. */
    var str: string

    constructor ()
      ensures str == ""
    {
      str := "";
    }

    /**
     * dateFilter.  `start` and `final` are the parsed dates, None when absent or unparseable;
     * `preMatched` are the radiology orders of the patients matching the query.  A crossed window
     * answers null with the error "crossDate"; with both dates given, the trace records whether
     * they are crossed.
     */
    method DateFilter(preMatched: seq<RadiologyOrder>, start: Option<Date>, final: Option<Date>)
      returns (matched: Option<seq<RadiologyOrder>>, error: Option<string>)
      modifies this
      ensures str == old(str) + (if start.Some? && final.Some? then "s.af(fd) " + BoolText(start.value > final.value) + "\n" else "")
      ensures matched == DateFilterResult(preMatched, start, final)
      ensures error == (if Crossed(start, final) then Some("crossDate") else None)
    {
      if start.Some? && final.Some? {
        str := str + "s.af(fd) " + BoolText(start.value > final.value) + "\n";
        if start.value > final.value {
          return None, Some("crossDate");
        }
      }
      error := None;
      if start.None? && final.None? {
        NoBoundsReturnsAll(preMatched);
        matched := Some(preMatched);
      } else {
        var m := MatchOrders(preMatched, start, final);
        matched := Some(m);
      }
    }

    /**
     * ordersTable, with a crossed window answered by the "crossDate" error and an empty table.
     * Otherwise it is the table as written: the studies of the matched orders, one row of the
     * seven columns per study.
     */
    method OrdersTable(studies: seq<RadiologyStudy>, preMatched: seq<RadiologyOrder>, start: Option<Date>,
                       final: Option<Date>, text: StudyText, readingPhysician: bool)
      returns (r: Result<OrdersView, Fault>)
      modifies this
      ensures str == (if start.Some? && final.Some? then "s.af(fd) " + BoolText(start.value > final.value) + "\n" else "")
      ensures Crossed(start, final) ==> r == Success(OrdersView([], EmptyColumns(), 0, Some("crossDate"), readingPhysician))
      ensures !Crossed(start, final) ==> r == OrdersTableAsWritten(studies, preMatched, start, final, text, readingPhysician)
    {
      str := "";
      var matched, error := DateFilter(preMatched, start, final);
      if matched.None? {
        return Success(OrdersView([], EmptyColumns(), 0, error, readingPhysician));
      }
      var found := StudyDao.GetRadiologyStudiesByRadiologyOrders(studies, OrderIdsOf(matched.value));
      var columns := BuildColumns(Lift(found), text);
      if columns.Failure? {
        return Failure(columns.error);
      }
      r := Success(OrdersView(matched.value, columns.value, |matched.value|, None, readingPhysician));
    }
  }
}
