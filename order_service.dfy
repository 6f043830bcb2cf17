// RadiologyOrderServiceImpl: placing and discontinuing radiology orders behind their guard
// chains, and the null-checked getters.  Placing and discontinuing are transactional: when a
// save fails part-way, the store is put back as it was.

module OrderService {
  import opened Wrappers
  import opened Entities
  import opened Collections
  import opened Store
  import StudyService

  /** The first guard of placeRadiologyOrder that rejects `o`, as its message; None when all pass. */
  function PlaceRejection(o: Option<RadiologyOrder>): (r: Option<string>)
    ensures r.None? <==> o.Some? && o.value.orderId.None? && o.value.study.Some? && o.value.study.value.modality.Some?
    ensures o.None? ==> r == Some("radiologyOrder cannot be null")
    ensures o.Some? && o.value.orderId.Some? ==> r == Some("Cannot edit an existing RadiologyOrder")
    ensures o.Some? && o.value.orderId.None? && o.value.study.None? ==> r == Some("radiologyOrder.study cannot be null")
    ensures o.Some? && o.value.orderId.None? && o.value.study.Some? && o.value.study.value.modality.None? ==>
              r == Some("radiologyOrder.study.modality cannot be null")
  {
    if o.None? then Some("radiologyOrder cannot be null")
    else if o.value.orderId.Some? then Some("Cannot edit an existing RadiologyOrder")
    else if o.value.study.None? then Some("radiologyOrder.study cannot be null")
    else if o.value.study.value.modality.None? then Some("radiologyOrder.study.modality cannot be null")
    else None
  }

  /** The order as it is stored by placeRadiologyOrder: its new id, its encounter, and no attached study. */
  function PlacedOrder(o: RadiologyOrder, orderId: nat, encounter: nat): (r: RadiologyOrder) {
    o.(orderId := Some(orderId), encounter := Some(encounter), study := None)
  }

  /**
   * placeRadiologyOrder.  Every guard runs before the first save; then a new encounter for the
   * order's patient and orderer is saved, the order is added to it and saved, and the order's
   * study is saved through the study service, pointing at the order; a new study gets the study
   * instance uid `uidOf` gives for its id.  The saved order comes back with its study attached.
   */
  method PlaceRadiologyOrder(db: Database, o: Option<RadiologyOrder>, now: Date, uidOf: nat -> string)
    returns (r: Result<RadiologyOrder, Fault>)
    requires db.Valid()
    modifies db
    ensures db.Valid()
    ensures PlaceRejection(o).Some? ==> r == Failure(IllegalArgument(PlaceRejection(o).value))
    ensures r.Failure? ==> db.State() == old(db.State())
    ensures r.Success? ==>
              var order := o.value;
              var encounter := |old(db.encounters)|;
              var orderId := |old(db.orders)| + 1;
              && PlaceRejection(o).None?
              && db.encounters == old(db.encounters) + [Encounter(order.patient, order.orderer, now, [orderId])]
              && db.orders == old(db.orders) + [PlacedOrder(order, orderId, encounter)]
              && r.value == PlacedOrder(order, orderId, encounter).(study := r.value.study)
              && r.value.study.Some? && r.value.study.value.studyId.Some?
              && var studyId := r.value.study.value.studyId.value;
              && r.value.study.value
                 == order.study.value.(orderId := Some(orderId), studyId := Some(studyId),
                                       studyInstanceUid := if order.study.value.studyId.None? then Some(uidOf(studyId))
                                                           else order.study.value.studyInstanceUid)
              && (order.study.value.studyId.None? ==> studyId == |old(db.studies)| + 1)
              && 1 <= studyId <= |old(db.studies)| + 1
              && db.studies == Upsert(old(db.studies), studyId, r.value.study.value)
              && db.effects == old(db.effects)
                   + [EncounterSaved(encounter), OrderSaved(orderId), StudySaved(r.value.study.value.studyId.value)]
              && db.reports == old(db.reports)
    ensures PlaceRejection(o).None? && o.value.study.value.studyId.None? ==> r.Success?
  {
    var rejection := PlaceRejection(o);
    if rejection.Some? {
      return Failure(IllegalArgument(rejection.value));
    }
    var order := o.value;
    var oldOrders, oldStudies, oldEncounters, oldReports, oldEffects :=
      db.orders, db.studies, db.encounters, db.reports, db.effects;

    var orderId, encounter := SaveInNewEncounter(db, order, now);
    var study := StudyService.SaveRadiologyStudy(db, Some(order.study.value.(orderId := Some(orderId))), uidOf);
    if study.Failure? {
      db.Restore(oldOrders, oldStudies, oldEncounters, oldReports, oldEffects);
      assert db.orders == old(db.orders) && db.studies == old(db.studies) && db.encounters == old(db.encounters);
      assert db.reports == old(db.reports) && db.effects == old(db.effects);
      return Failure(study.error);
    }
    r := Success(PlacedOrder(order, orderId, encounter).(study := Some(study.value)));
  }

  /**
   * The saves placeRadiologyOrder makes before the study's: a new encounter for the order's
   * patient and orderer, then the order in it, and the encounter listing the order.
   */
  method SaveInNewEncounter(db: Database, order: RadiologyOrder, now: Date) returns (orderId: nat, encounter: nat)
    requires db.Valid() && order.orderId.None?
    modifies db
    ensures db.Valid()
    ensures encounter == |old(db.encounters)| && orderId == |old(db.orders)| + 1
    ensures db.encounters == old(db.encounters) + [Encounter(order.patient, order.orderer, now, [orderId])]
    ensures db.orders == old(db.orders) + [PlacedOrder(order, orderId, encounter)]
    ensures db.studies == old(db.studies) && db.reports == old(db.reports)
    ensures db.effects == old(db.effects) + [EncounterSaved(encounter), OrderSaved(orderId)]
  {
    encounter := db.SaveEncounter(Encounter(order.patient, order.orderer, now, []));
    var saved := db.SaveOrder(order.(encounter := Some(encounter), study := None));
    orderId := saved.value.orderId.value;
    db.AddOrderToEncounter(encounter, orderId);
    assert [] + [orderId] == [orderId];
  }

  /** The first guard of discontinueRadiologyOrder that rejects the call, as its message. */
  function DiscontinueRejection(o: Option<RadiologyOrder>, orderer: Option<ProviderId>, now: Date): (r: Option<string>)
    ensures r.None? <==>
              && o.Some? && o.value.orderId.Some? && !IsDiscontinuedRightNow(o.value, now)
              && !IsInProgress(o.value) && !IsCompleted(o.value) && orderer.Some?
    ensures o.None? ==> r == Some("radiologyOrder cannot be null")
    ensures o.Some? && o.value.orderId.None? ==> r == Some("can only discontinue existing RadiologyOrder. orderId is null")
    ensures o.Some? && o.value.orderId.Some? && IsDiscontinuedRightNow(o.value, now) ==>
              r == Some("radiologyOrder is already discontinued")
    ensures o.Some? && o.value.orderId.Some? && !IsDiscontinuedRightNow(o.value, now) && IsInProgress(o.value) ==>
              r == Some("radiologyOrder is in progress")
    ensures (o.Some? && o.value.orderId.Some? && !IsDiscontinuedRightNow(o.value, now) && !IsInProgress(o.value)
             && IsCompleted(o.value)) ==> r == Some("radiologyOrder is completed")
    ensures (o.Some? && o.value.orderId.Some? && !IsDiscontinuedRightNow(o.value, now) && !IsInProgress(o.value)
             && !IsCompleted(o.value) && orderer.None?) ==> r == Some("provider cannot be null")
  {
    if o.None? then Some("radiologyOrder cannot be null")
    else if o.value.orderId.None? then Some("can only discontinue existing RadiologyOrder. orderId is null")
    else if IsDiscontinuedRightNow(o.value, now) then Some("radiologyOrder is already discontinued")
    else if IsInProgress(o.value) then Some("radiologyOrder is in progress")
    else if IsCompleted(o.value) then Some("radiologyOrder is completed")
    else if orderer.None? then Some("provider cannot be null")
    else None
  }

  /** The DISCONTINUE order that stops order `previous`, by `orderer`, recorded in `encounter`. */
  function DiscontinuationOrder(previous: RadiologyOrder, previousId: nat, uuid: string, orderer: ProviderId,
                                reason: Option<string>, encounter: nat, now: Date): (r: RadiologyOrder)
  {
    RadiologyOrder(None, uuid, previous.patient, Some(orderer), Some(now), DISCONTINUE, Some(previousId),
                   Some(encounter), false, None, None, reason, None)
  }

  /**
   * discontinueRadiologyOrder.  Every guard runs before the first save; then a new encounter for
   * the order's patient and the given provider is saved, and only then the order is discontinued:
   * the stored order is stopped now, and a DISCONTINUE order that points back to it, carrying the
   * non-coded reason and the new encounter, is saved and returned.  `newUuid` is the uuid the new
   * order is created with.
   */
  method DiscontinueRadiologyOrder(db: Database, o: Option<RadiologyOrder>, orderer: Option<ProviderId>,
                                   reason: Option<string>, now: Date, newUuid: string)
    returns (r: Result<RadiologyOrder, Fault>)
    requires db.Valid()
    modifies db
    ensures db.Valid()
    ensures DiscontinueRejection(o, orderer, now).Some? ==>
              r == Failure(IllegalArgument(DiscontinueRejection(o, orderer, now).value))
    ensures r.Failure? ==> db.State() == old(db.State())
    ensures DiscontinueRejection(o, orderer, now).None? && 1 <= o.value.orderId.value <= |old(db.orders)| ==> r.Success?
    ensures r.Success? ==>
              var previousId := o.value.orderId.value;
              var encounter := |old(db.encounters)|;
              var orderId := |old(db.orders)| + 1;
              && DiscontinueRejection(o, orderer, now).None?
              && 1 <= previousId <= |old(db.orders)|
              && db.encounters == old(db.encounters) + [Encounter(o.value.patient, orderer, now, [])]
              && r.value == DiscontinuationOrder(o.value, previousId, newUuid, orderer.value, reason, encounter, now)
                              .(orderId := Some(orderId))
              && db.orders == old(db.orders)[previousId - 1 := old(db.orders)[previousId - 1].(dateStopped := Some(now))]
                              + [r.value]
              && db.effects == old(db.effects)
                   + [EncounterSaved(encounter), OrderDiscontinued(previousId), OrderSaved(orderId)]
              && db.studies == old(db.studies) && db.reports == old(db.reports)
  {
    var rejection := DiscontinueRejection(o, orderer, now);
    if rejection.Some? {
      return Failure(IllegalArgument(rejection.value));
    }
    var previousId := o.value.orderId.value;
    var oldOrders, oldStudies, oldEncounters, oldReports, oldEffects :=
      db.orders, db.studies, db.encounters, db.reports, db.effects;

    var encounter := db.SaveEncounter(Encounter(o.value.patient, orderer, now, []));
    var stored := db.GetOrder(previousId);
    if stored.None? {
      db.Restore(oldOrders, oldStudies, oldEncounters, oldReports, oldEffects);
      return Failure(OrderNotFound);
    }
    db.UpdateOrder(previousId, stored.value.(dateStopped := Some(now)), OrderDiscontinued(previousId));
    var saved := db.SaveOrder(DiscontinuationOrder(o.value, previousId, newUuid, orderer.value, reason, encounter, now));
    r := Success(saved.value);
  }

  // The getters: each rejects a null argument and otherwise hands the order table's answer back.

  function GetRadiologyOrder(orders: seq<RadiologyOrder>, orderId: Option<nat>): (r: Result<Option<RadiologyOrder>, Fault>)
    requires OrderIdsArePositions(orders)
    ensures r.Failure? <==> orderId.None?
    ensures r.Failure? ==> r.error == IllegalArgument("orderId cannot be null")
    ensures r.Success? ==> (r.value.Some? <==> 1 <= orderId.value <= |orders|)
    ensures r.Success? && r.value.Some? ==> r.value.value.orderId == orderId && r.value.value in orders
  {
    if orderId.None? then Failure(IllegalArgument("orderId cannot be null"))
    else if 1 <= orderId.value <= |orders| then Success(Some(orders[orderId.value - 1]))
    else Success(None)
  }

  function WithUuid(uuid: string): (r: RadiologyOrder -> bool) {
    (o: RadiologyOrder) => o.uuid == uuid
  }

  function GetRadiologyOrderByUuid(orders: seq<RadiologyOrder>, uuid: Option<string>): (r: Result<Lookup<RadiologyOrder>, Fault>)
    ensures r.Failure? <==> uuid.None?
    ensures r.Failure? ==> r.error == IllegalArgument("uuid cannot be null")
    ensures r.Success? ==> (r.value.Absent? <==> forall i :: 0 <= i < |orders| ==> orders[i].uuid != uuid.value)
    ensures r.Success? ==> (r.value.Unique? <==> ExactlyOne(orders, WithUuid(uuid.value)))
    ensures r.Success? && r.value.Unique? ==> r.value.value in orders && r.value.value.uuid == uuid.value
  {
    if uuid.None? then Failure(IllegalArgument("uuid cannot be null"))
    else
      UniqueLookupIff(orders, WithUuid(uuid.value));
      Success(UniqueResult(Filter(orders, WithUuid(uuid.value))))
  }

  function OfPatient(patient: PatientId): (r: RadiologyOrder -> bool) {
    (o: RadiologyOrder) => o.patient == patient
  }

  function GetRadiologyOrdersByPatient(orders: seq<RadiologyOrder>, patient: Option<PatientId>)
    : (r: Result<seq<RadiologyOrder>, Fault>)
    ensures r.Failure? <==> patient.None?
    ensures r.Failure? ==> r.error == IllegalArgument("patient cannot be null")
    ensures r.Success? ==> forall o :: o in r.value <==> o in orders && o.patient == patient.value
    ensures r.Success? ==> IsSubsequence(r.value, orders)
  {
    if patient.None? then Failure(IllegalArgument("patient cannot be null"))
    else
      FilterIsSubsequence(orders, OfPatient(patient.value));
      Success(Filter(orders, OfPatient(patient.value)))
  }

  function OfPatients(patients: seq<PatientId>): (r: RadiologyOrder -> bool) {
    (o: RadiologyOrder) => o.patient in patients
  }

  function GetRadiologyOrdersByPatients(orders: seq<RadiologyOrder>, patients: Option<seq<PatientId>>)
    : (r: Result<seq<RadiologyOrder>, Fault>)
    ensures r.Failure? <==> patients.None?
    ensures r.Failure? ==> r.error == IllegalArgument("patients cannot be null")
    ensures r.Success? ==> forall o :: o in r.value <==> o in orders && o.patient in patients.value
    ensures r.Success? ==> IsSubsequence(r.value, orders)
  {
    if patients.None? then Failure(IllegalArgument("patients cannot be null"))
    else
      FilterIsSubsequence(orders, OfPatients(patients.value));
      Success(Filter(orders, OfPatients(patients.value)))
  }
}
