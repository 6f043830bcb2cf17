// The newer order form controller (controller.RadiologyOrderFormController): postSaveOrder, which
// validates, commits the order and its study and only then sends Save_Order, and executeCommand,
// whose buttons go through the send-then-commit gate with the IN_SYNC_*_SUCCESS statuses.

module OrderForm {
  import opened Wrappers
  import opened Entities
  import opened Store
  import opened WorklistProtocol
  import LegacyOrderForm

  /** The message key postSaveOrder sets after saving, from the re-read worklist status. */
  function SavedMessage(status: MwlStatus): (key: string)
    ensures key == "radiology.savedFailWorklist" <==> status == OUT_SYNC_SAVE_FAILED || status == OUT_SYNC_UPDATE_FAILED
    ensures key != "radiology.savedFailWorklist" ==> key == "Order.saved"
  {
    if status == OUT_SYNC_SAVE_FAILED || status == OUT_SYNC_UPDATE_FAILED then "radiology.savedFailWorklist"
    else "Order.saved"
  }

  /**
   * Each generation reports a failed save for exactly the statuses of its own style that say a
   * save or an update left the worklist out of sync.
   */
  lemma SavedMessagesFlagFailedSaves(s: MwlStatus)
    ensures LegacyOrderForm.SavedMessage(s) == "radiology.savedFailWorklist" <==>
              !IsInSyncStyle(s) && SyncOf(s) == OutOfSync && (OperationOf(s) == Some(Save) || OperationOf(s) == Some(Update))
    ensures SavedMessage(s) == "radiology.savedFailWorklist" <==>
              IsInSyncStyle(s) && SyncOf(s) == OutOfSync && (OperationOf(s) == Some(Save) || OperationOf(s) == Some(Update))
  {
  }

  /** The order as postSaveOrder saves it: without an orderer, the authenticated user orders it. */
  function WithOrderer(order: RadiologyOrder, user: ProviderId): (o: RadiologyOrder)
    ensures o.orderer.Some?
    ensures order.orderer.Some? ==> o == order
    ensures order.orderer.None? ==> o == order.(orderer := Some(user))
  {
    if order.orderer.None? then order.(orderer := Some(user)) else order
  }

  /**
   * A scheduler may not save a study that nobody scheduled and that a device already reported on.
   */
  predicate SchedulerRefused(isScheduler: bool, study: RadiologyStudy) {
    isScheduler && study.scheduler.None? && !IsScheduleable(study)
  }

  /**
   * The try block of postSaveOrder, from `before` to `after`: the order saved under id `oid`,
   * the study saved under id `sid` pointing at it, one Save_Order sent for that study with its
   * answer written into the study, and the message picked from that answer.
   */
  ghost predicate SavedAndSent(before: Tables, after: Tables, order: RadiologyOrder, study: RadiologyStudy,
                               message: string)
  {
    && (order.orderId.Some? ==> 1 <= order.orderId.value <= |before.orders|)
    && (study.studyId.Some? ==> 1 <= study.studyId.value <= |before.studies|)
    && var oid := LegacyOrderForm.SavedId(order.orderId, |before.orders|);
    && var sid := LegacyOrderForm.SavedId(study.studyId, |before.studies|);
    && |after.studies| == (if study.studyId.None? then |before.studies| + 1 else |before.studies|)
    && var status := after.studies[sid - 1].mwlStatus;
    && after.orders == Upsert(before.orders, oid, order.(orderId := Some(oid)))
    && after.studies == Upsert(before.studies, sid, study.(studyId := Some(sid), orderId := Some(oid), mwlStatus := status))
    && after.encounters == before.encounters && after.reports == before.reports
    && after.effects == before.effects + [OrderSaved(oid), StudySaved(sid), WorklistSent(sid, Save_Order)]
    && message == SavedMessage(status)
  }

  /** postSaveOrder sends only after both local saves. */
  lemma SaveCommitsFirst(before: Tables, after: Tables, order: RadiologyOrder, study: RadiologyStudy, message: string)
    requires SavedAndSent(before, after, order, study, message)
    ensures |before.effects| < |after.effects| && after.effects[..|before.effects|] == before.effects
    ensures after.effects[|after.effects| - 1].WorklistSent?
    ensures CommitsBeforeSends(after.effects[|before.effects|..])
  {
    var oid := LegacyOrderForm.SavedId(order.orderId, |before.orders|);
    var sid := LegacyOrderForm.SavedId(study.studyId, |before.studies|);
    assert after.effects[|before.effects|..] == [OrderSaved(oid), StudySaved(sid), WorklistSent(sid, Save_Order)];
  }

  /**
   * The local saves of postSaveOrder: save the order, point the study at the saved order and save
   * it.  Returns both ids.  A stale order faults before anything is saved; a stale study faults
   * with the order saved.
   */
  method SaveOrderAndStudy(db: Database, order: RadiologyOrder, study: RadiologyStudy)
    returns (r: Result<(nat, nat), Fault>)
    requires db.Valid()
    modifies db
    ensures db.Valid()
    ensures db.encounters == old(db.encounters) && db.reports == old(db.reports)
    ensures r.Success? <==>
              (order.orderId.Some? ==> 1 <= order.orderId.value <= |old(db.orders)|)
              && (study.studyId.Some? ==> 1 <= study.studyId.value <= |old(db.studies)|)
    ensures r.Success? ==>
              var (oid, sid) := r.value;
              && oid == LegacyOrderForm.SavedId(order.orderId, |old(db.orders)|)
              && sid == LegacyOrderForm.SavedId(study.studyId, |old(db.studies)|)
              && db.orders == Upsert(old(db.orders), oid, order.(orderId := Some(oid)))
              && db.studies == Upsert(old(db.studies), sid, study.(studyId := Some(sid), orderId := Some(oid)))
              && db.effects == old(db.effects) + [OrderSaved(oid), StudySaved(sid)]
    ensures r.Failure? ==> r.error == StaleObject && db.studies == old(db.studies)
    ensures r.Failure? && order.orderId.Some? && !(1 <= order.orderId.value <= |old(db.orders)|) ==>
              db.State() == old(db.State())
    ensures r.Failure? && !(order.orderId.Some? && !(1 <= order.orderId.value <= |old(db.orders)|)) ==>
              var oid := LegacyOrderForm.SavedId(order.orderId, |old(db.orders)|);
              && 1 <= oid <= |old(db.orders)| + 1
              && db.orders == Upsert(old(db.orders), oid, order.(orderId := Some(oid)))
              && db.effects == old(db.effects) + [OrderSaved(oid)]
  {
    var saved := db.SaveOrder(order);
    if saved.Failure? {
      return Failure(saved.error);
    }
    var orderId := saved.value.orderId.value;
    var stored := db.GetOrder(orderId);
    var savedStudy := db.SaveRadiologyStudy(study.(orderId := stored.value.orderId));
    if savedStudy.Failure? {
      return Failure(savedStudy.error);
    }
    r := Success((orderId, savedStudy.value.studyId.value));
  }

  /**
   * The try block of postSaveOrder: the local saves, then Save_Order for the saved study, whose
   * status is re-read by id to pick the message.  Faults happen only in the local saves.
   */
  method SaveAndSend(db: Database, order: RadiologyOrder, study: RadiologyStudy) returns (r: Result<string, Fault>)
    requires db.Valid()
    modifies db
    ensures db.Valid()
    ensures r.Success? <==>
              (order.orderId.Some? ==> 1 <= order.orderId.value <= |old(db.orders)|)
              && (study.studyId.Some? ==> 1 <= study.studyId.value <= |old(db.studies)|)
    ensures r.Success? ==> SavedAndSent(old(db.State()), db.State(), order, study, r.value)
    ensures r.Failure? ==> r.error == StaleObject && db.studies == old(db.studies)
    ensures r.Failure? && order.orderId.Some? && !(1 <= order.orderId.value <= |old(db.orders)|) ==>
              db.State() == old(db.State())
    ensures r.Failure? && !(order.orderId.Some? && !(1 <= order.orderId.value <= |old(db.orders)|)) ==>
              var oid := LegacyOrderForm.SavedId(order.orderId, |old(db.orders)|);
              && 1 <= oid <= |old(db.orders)| + 1
              && db.orders == Upsert(old(db.orders), oid, order.(orderId := Some(oid)))
              && db.encounters == old(db.encounters) && db.reports == old(db.reports)
              && db.effects == old(db.effects) + [OrderSaved(oid)]
  {
    var saved := SaveOrderAndStudy(db, order, study);
    if saved.Failure? {
      return Failure(saved.error);
    }
    var (orderId, studyId) := saved.value;
    var message := SendSaved(db, studyId);
    r := Success(message);
  }

  /** Sends Save_Order for stored study `studyId`, re-reads the study by id and picks the message. */
  method SendSaved(db: Database, studyId: nat) returns (message: string)
    requires db.Valid() && 1 <= studyId <= |db.studies|
    modifies db
    ensures db.Valid()
    ensures |db.studies| == |old(db.studies)|
    ensures db.studies == old(db.studies)[studyId - 1 := old(db.studies)[studyId - 1].(mwlStatus := db.studies[studyId - 1].mwlStatus)]
    ensures db.orders == old(db.orders) && db.encounters == old(db.encounters) && db.reports == old(db.reports)
    ensures db.effects == old(db.effects) + [WorklistSent(studyId, Save_Order)]
    ensures message == SavedMessage(db.studies[studyId - 1].mwlStatus)
  {
    db.SendModalityWorklist(studyId, Save_Order);
    var reread := db.GetStudy(studyId);
    message := SavedMessage(reread.value.mwlStatus);
  }

  /**
   * postSaveOrder.  `user` is the authenticated user and `isScheduler` whether it has the
   * Scheduler role; `invalid` is whether the order or study validator reported an error.  Every
   * outcome other than a completed save shows the form again.
   */
  method PostSaveOrder(db: Database, authenticated: bool, user: ProviderId, isScheduler: bool, invalid: bool,
                       patientId: Option<nat>, order: RadiologyOrder, study: RadiologyStudy, session: Session)
    returns (view: View, session': Session)
    requires db.Valid()
    modifies db
    ensures db.Valid()
    ensures !authenticated ==> view == OrderForm && session' == session && db.State() == old(db.State())
    ensures authenticated && SchedulerRefused(isScheduler, study) ==>
              view == OrderForm && session' == session.(error := Some(ErrorKey("radiology.studyPerformed")))
              && db.State() == old(db.State())
    ensures authenticated && !SchedulerRefused(isScheduler, study) && invalid ==>
              view == OrderForm && session' == session && db.State() == old(db.State())
    ensures view != OrderForm ==>
              && authenticated && !SchedulerRefused(isScheduler, study) && !invalid
              && view == RedirectAfterSave(patientId)
              && session'.error == session.error && session'.message.Some?
              && SavedAndSent(old(db.State()), db.State(), WithOrderer(order, user), study, session'.message.value)
    ensures authenticated && !SchedulerRefused(isScheduler, study) && !invalid ==>
              (view == OrderForm <==>
                 (order.orderId.Some? && !(1 <= order.orderId.value <= |old(db.orders)|))
                 || (study.studyId.Some? && !(1 <= study.studyId.value <= |old(db.studies)|)))
    ensures authenticated && view == OrderForm && session'.error != session.error && !SchedulerRefused(isScheduler, study) ==>
              session'.error == Some(ExceptionMessage(StaleObject)) && session'.message == session.message
    ensures authenticated && !SchedulerRefused(isScheduler, study) && !invalid && view == OrderForm ==>
              session' == session.(error := Some(ExceptionMessage(StaleObject))) && db.studies == old(db.studies)
    ensures authenticated && !SchedulerRefused(isScheduler, study) && !invalid
            && order.orderId.Some? && !(1 <= order.orderId.value <= |old(db.orders)|) ==>
              db.State() == old(db.State())
    ensures authenticated && !SchedulerRefused(isScheduler, study) && !invalid && view == OrderForm
            && !(order.orderId.Some? && !(1 <= order.orderId.value <= |old(db.orders)|)) ==>
              var oid := LegacyOrderForm.SavedId(order.orderId, |old(db.orders)|);
              && 1 <= oid <= |old(db.orders)| + 1
              && db.orders == Upsert(old(db.orders), oid, WithOrderer(order, user).(orderId := Some(oid)))
              && db.encounters == old(db.encounters) && db.reports == old(db.reports)
              && db.effects == old(db.effects) + [OrderSaved(oid)]
  {
    if !authenticated {
      return OrderForm, session;
    }
    var toSave := WithOrderer(order, user);
    if SchedulerRefused(isScheduler, study) {
      return OrderForm, session.(error := Some(ErrorKey("radiology.studyPerformed")));
    }
    if invalid {
      return OrderForm, session;
    }
    var r := SaveAndSend(db, toSave, study);
    match r
    case Success(message) =>
      view, session' := RedirectAfterSave(patientId), session.(message := Some(message));
    case Failure(f) =>
      view, session' := OrderForm, session.(error := Some(ExceptionMessage(f)));
  }

  /** Whether the newer executeCommand returns true for an authenticated user, from the store before it. */
  ghost predicate CommandSucceeds(before: Tables, req: Request, order: RadiologyOrder) {
    SelectCommand(req).None? || GateOpen(before, order.orderId)
  }

  /**
   * Everything the newer executeCommand does, from `before` to `after`, setting `session` to
   * `session'` and returning `ok`.
   */
  ghost predicate Executed(before: Tables, after: Tables, authenticated: bool, req: Request, order: RadiologyOrder,
                           now: Date, session: Session, session': Session, ok: bool)
  {
    && (ok <==> authenticated && CommandSucceeds(before, req, order))
    && (!authenticated || SelectCommand(req).None? ==> session' == session && after == before)
    && (!ok ==> after == before)
    && (authenticated && !ok ==>
          session'.message == session.message && session'.error == Some(ExceptionMessage(GateFault(before, order.orderId))))
    && (authenticated && SelectCommand(req).Some? && ok ==>
          var c := SelectCommand(req).value;
          && session'.error == session.error && session'.message.Some?
          && Gated(before, after, order.orderId.value, ChangeFor(c, order), InSyncSuccess(c), now, session'.message.value))
  }

  /**
   * executeCommand: nothing for an unauthenticated user; otherwise the first of the four gated
   * buttons present runs.  A fault becomes the session's error and false; a refusal by the
   * worklist is still true.
   */
  method ExecuteCommand(db: Database, authenticated: bool, req: Request, order: RadiologyOrder, session: Session,
                        now: Date)
    returns (ok: bool, session': Session)
    requires db.Valid()
    modifies db
    ensures db.Valid()
    ensures Executed(old(db.State()), db.State(), authenticated, req, order, now, session, session', ok)
  {
    if !authenticated {
      return false, session;
    }
    var command := SelectCommand(req);
    if command.None? {
      return true, session;
    }
    var c := command.value;
    var r := SendThenCommit(db, order.orderId, ChangeFor(c, order), InSyncSuccess(c), now);
    match r
    case Success(message) =>
      ok, session' := true, session.(message := Some(message));
    case Failure(f) =>
      ok, session' := false, session.(error := Some(ExceptionMessage(f)));
  }

  /** The form's general POST handler: run the command, then redirect, or show the form again. */
  method Post(db: Database, authenticated: bool, req: Request, patientId: Option<nat>, order: RadiologyOrder,
              session: Session, now: Date)
    returns (view: View, session': Session)
    requires db.Valid()
    modifies db
    ensures db.Valid()
    ensures var ok := authenticated && CommandSucceeds(old(db.State()), req, order);
            && view == (if ok then RedirectAfterSave(patientId) else OrderForm)
            && Executed(old(db.State()), db.State(), authenticated, req, order, now, session, session', ok)
  {
    var ok;
    ok, session' := ExecuteCommand(db, authenticated, req, order, session, now);
    view := if ok then RedirectAfterSave(patientId) else OrderForm;
  }
}
