// The persistent store the services and controllers work on: the order, study, encounter and
// report tables, and the ordered log of every side effect they cause.  The primitives here are
// the calls the radiology code makes into Hibernate and into the OpenMRS order and encounter
// services, each with its evident effect on the tables.

module Store {
  import opened Wrappers
  import opened Entities
  import StudyDao
  import ReportDao
  import Collections

  /** One side effect, in the order it happened. */
  datatype Effect =
    | EncounterSaved(encounter: nat)
    | OrderSaved(orderId: nat)
    | StudySaved(studyId: nat)
    | ReportSaved(reportId: nat)
    | OrderVoided(orderId: nat)
    | OrderUnvoided(orderId: nat)
    | OrderDiscontinued(orderId: nat)
    | OrderUndiscontinued(orderId: nat)
    | WorklistSent(studyId: nat, request: OrderRequest)

  /** The effects that change the order table. */
  predicate ChangesOrder(e: Effect) {
    e.OrderSaved? || e.OrderVoided? || e.OrderUnvoided? || e.OrderDiscontinued? || e.OrderUndiscontinued?
  }

  /** In `log`, no local change comes after a worklist send: everything is committed, then sent. */
  predicate CommitsBeforeSends(log: seq<Effect>) {
    forall i, j :: 0 <= i < j < |log| && log[i].WorklistSent? ==> log[j].WorklistSent?
  }

  /** In `log`, no local change comes before a worklist send: everything is sent, then committed. */
  predicate SendsBeforeCommits(log: seq<Effect>) {
    forall i, j :: 0 <= i < j < |log| && log[j].WorklistSent? ==> log[i].WorklistSent?
  }

  /**
   * The rows after saveOrUpdate of `x` under id `id`: a new row at the end when `id` is the next
   * id, otherwise the row `id` replaced.
   */
  function Upsert<T>(rows: seq<T>, id: nat, x: T): (r: seq<T>)
    requires 1 <= id <= |rows| + 1
    ensures |r| == if id == |rows| + 1 then |rows| + 1 else |rows|
    ensures r[id - 1] == x
    ensures forall i :: 0 <= i < |rows| && i != id - 1 ==> r[i] == rows[i]
  {
    if id == |rows| + 1 then rows + [x] else rows[id - 1 := x]
  }

  /** A snapshot of every table and of the effect log. */
  datatype Tables = Tables(
    orders: seq<RadiologyOrder>,
    studies: seq<RadiologyStudy>,
    encounters: seq<Encounter>,
    reports: seq<RadiologyReport>,
    effects: seq<Effect>)

  class Database {
    var orders: seq<RadiologyOrder>
    var studies: seq<RadiologyStudy>
    var encounters: seq<Encounter>
    var reports: seq<RadiologyReport>
    /** Every side effect so far, oldest first. */
    var effects: seq<Effect>

    /** Generated ids are row positions: rows are never deleted. */
    ghost predicate Valid()
      reads this
    {
      OrderIdsArePositions(orders) && StudyIdsArePositions(studies) && ReportIdsArePositions(reports)
    }

    /** The whole stored state, as a value. */
    function State(): (r: Tables)
      reads this
    {
      Tables(orders, studies, encounters, reports, effects)
    }

    constructor ()
      ensures Valid()
      ensures orders == [] && studies == [] && encounters == [] && reports == [] && effects == []
    {
      orders, studies, encounters, reports, effects := [], [], [], [], [];
    }

    /** OrderService.getOrder: the order with that id, or null. */
    function GetOrder(orderId: nat): (r: Option<RadiologyOrder>)
      reads this
      requires Valid()
      ensures r.Some? <==> 1 <= orderId <= |orders|
      ensures r.Some? ==> r.value == orders[orderId - 1] && r.value.orderId == Some(orderId)
    {
      if 1 <= orderId <= |orders| then Some(orders[orderId - 1]) else None
    }

    /** The study table's primary-key lookup. */
    function GetStudy(studyId: nat): (r: Option<RadiologyStudy>)
      reads this
      requires Valid()
      ensures r.Some? <==> 1 <= studyId <= |studies|
      ensures r.Some? ==> r.value == studies[studyId - 1]
    {
      StudyDao.GetRadiologyStudyIsIndexing(studies, studyId);
      StudyDao.GetRadiologyStudy(studies, studyId)
    }

    /** Hibernate's saveOrUpdate on the order table, as OrderService.saveOrder uses it. */
    method SaveOrder(o: RadiologyOrder) returns (r: Result<RadiologyOrder, Fault>)
      requires Valid()
      modifies this
      ensures Valid()
      ensures studies == old(studies) && encounters == old(encounters) && reports == old(reports)
      ensures o.orderId.None? ==>
                r == Success(o.(orderId := Some(|old(orders)| + 1)))
                && orders == old(orders) + [r.value] && effects == old(effects) + [OrderSaved(|old(orders)| + 1)]
      ensures o.orderId.Some? && 1 <= o.orderId.value <= |old(orders)| ==>
                r == Success(o) && orders == old(orders)[o.orderId.value - 1 := o]
                && effects == old(effects) + [OrderSaved(o.orderId.value)]
      ensures o.orderId.Some? && !(1 <= o.orderId.value <= |old(orders)|) ==>
                r == Failure(StaleObject) && orders == old(orders) && effects == old(effects)
    {
      match o.orderId
      case None =>
        var saved := o.(orderId := Some(|orders| + 1));
        orders := orders + [saved];
        effects := effects + [OrderSaved(|orders|)];
        r := Success(saved);
      case Some(id) =>
        if 1 <= id <= |orders| {
          orders := orders[id - 1 := o];
          effects := effects + [OrderSaved(id)];
          r := Success(o);
        } else {
          r := Failure(StaleObject);
        }
    }

    /**
     * saveRadiologyStudy: saveOrUpdate on the study table, returning the study it was given
     * (with its generated id when it is new).
     */
    method SaveRadiologyStudy(s: RadiologyStudy) returns (r: Result<RadiologyStudy, Fault>)
      requires Valid()
      modifies this
      ensures Valid()
      ensures orders == old(orders) && encounters == old(encounters) && reports == old(reports)
      ensures s.studyId.None? ==>
                r == Success(s.(studyId := Some(|old(studies)| + 1)))
                && studies == old(studies) + [r.value] && effects == old(effects) + [StudySaved(|old(studies)| + 1)]
      ensures s.studyId.Some? && 1 <= s.studyId.value <= |old(studies)| ==>
                r == Success(s) && studies == old(studies)[s.studyId.value - 1 := s]
                && effects == old(effects) + [StudySaved(s.studyId.value)]
      ensures s.studyId.Some? && !(1 <= s.studyId.value <= |old(studies)|) ==>
                r == Failure(StaleObject) && studies == old(studies) && effects == old(effects)
    {
      match s.studyId
      case None =>
        var saved := s.(studyId := Some(|studies| + 1));
        studies := studies + [saved];
        effects := effects + [StudySaved(|studies|)];
        r := Success(saved);
      case Some(id) =>
        if 1 <= id <= |studies| {
          studies := studies[id - 1 := s];
          effects := effects + [StudySaved(id)];
          r := Success(s);
        } else {
          r := Failure(StaleObject);
        }
    }

    /** saveRadiologyReport: saveOrUpdate on the report table. */
    method SaveRadiologyReport(x: RadiologyReport) returns (r: Result<RadiologyReport, Fault>)
      requires Valid()
      modifies this
      ensures Valid()
      ensures orders == old(orders) && studies == old(studies) && encounters == old(encounters)
      ensures x.reportId.None? ==>
                r == Success(x.(reportId := Some(|old(reports)| + 1)))
                && reports == old(reports) + [r.value] && effects == old(effects) + [ReportSaved(|old(reports)| + 1)]
      ensures x.reportId.Some? && 1 <= x.reportId.value <= |old(reports)| ==>
                r == Success(x) && reports == old(reports)[x.reportId.value - 1 := x]
                && effects == old(effects) + [ReportSaved(x.reportId.value)]
      ensures x.reportId.Some? && !(1 <= x.reportId.value <= |old(reports)|) ==>
                r == Failure(StaleObject) && reports == old(reports) && effects == old(effects)
    {
      match x.reportId
      case None =>
        var saved := x.(reportId := Some(|reports| + 1));
        reports := reports + [saved];
        effects := effects + [ReportSaved(|reports|)];
        r := Success(saved);
      case Some(id) =>
        if 1 <= id <= |reports| {
          reports := reports[id - 1 := x];
          effects := effects + [ReportSaved(id)];
          r := Success(x);
        } else {
          r := Failure(StaleObject);
        }
    }

    /** EncounterService.saveEncounter of a new encounter; returns its row index. */
    method SaveEncounter(e: Encounter) returns (index: nat)
      requires Valid()
      modifies this
      ensures Valid()
      ensures index == |old(encounters)| && encounters == old(encounters) + [e]
      ensures orders == old(orders) && studies == old(studies) && reports == old(reports)
      ensures effects == old(effects) + [EncounterSaved(index)]
    {
      index := |encounters|;
      encounters := encounters + [e];
      effects := effects + [EncounterSaved(index)];
    }

    /** Encounter.addOrder: the encounter lists the order among its orders. */
    method AddOrderToEncounter(index: nat, orderId: nat)
      requires Valid() && index < |encounters|
      modifies this
      ensures Valid()
      ensures encounters == old(encounters)[index := old(encounters)[index].(orders := old(encounters)[index].orders + [orderId])]
      ensures orders == old(orders) && studies == old(studies) && reports == old(reports) && effects == old(effects)
    {
      encounters := encounters[index := encounters[index].(orders := encounters[index].orders + [orderId])];
    }

    /** Puts the tables back as they were: the rollback of a failed transaction. */
    method Restore(o: seq<RadiologyOrder>, s: seq<RadiologyStudy>, e: seq<Encounter>, r: seq<RadiologyReport>,
                   log: seq<Effect>)
      requires OrderIdsArePositions(o) && StudyIdsArePositions(s) && ReportIdsArePositions(r)
      modifies this
      ensures Valid()
      ensures orders == o && studies == s && encounters == e && reports == r && effects == log
    {
      orders, studies, encounters, reports, effects := o, s, e, r, log;
    }

    /** Replaces the stored order `orderId` and logs `effect`; the other tables are untouched. */
    method UpdateOrder(orderId: nat, o: RadiologyOrder, effect: Effect)
      requires Valid() && 1 <= orderId <= |orders| && o.orderId == Some(orderId)
      modifies this
      ensures Valid()
      ensures orders == old(orders)[orderId - 1 := o]
      ensures studies == old(studies) && encounters == old(encounters) && reports == old(reports)
      ensures effects == old(effects) + [effect]
    {
      orders := orders[orderId - 1 := o];
      effects := effects + [effect];
    }

    /**
     * The modality worklist send for study `studyId`.  What the worklist answers is not known
     * here: any status may come back, and it is written into that study and nowhere else.
     */
    method SendModalityWorklist(studyId: nat, request: OrderRequest)
      requires Valid() && 1 <= studyId <= |studies|
      modifies this
      ensures Valid()
      ensures |studies| == |old(studies)|
      ensures studies == old(studies)[studyId - 1 := old(studies)[studyId - 1].(mwlStatus := studies[studyId - 1].mwlStatus)]
      ensures orders == old(orders) && encounters == old(encounters) && reports == old(reports)
      ensures effects == old(effects) + [WorklistSent(studyId, request)]
    {
      var status: MwlStatus :| true;
      studies := studies[studyId - 1 := studies[studyId - 1].(mwlStatus := status)];
      effects := effects + [WorklistSent(studyId, request)];
    }
  }
}
