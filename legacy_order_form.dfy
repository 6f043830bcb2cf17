// The older order form controller (web.controller.RadiologyOrderFormController): its POST
// handler and executeCommand.  Saving commits locally first (order, study, study instance uid)
// and only then sends Save_Order; the other buttons go through the send-then-commit gate with
// the VOID_OK / UNVOID_OK / DISCONTINUE_OK / UNDISCONTINUE_OK statuses.

module LegacyOrderForm {
  import opened Wrappers
  import opened Entities
  import StudyDao
  import StudyUid
  import opened Store
  import opened WorklistProtocol

  /** The message key the older controller sets after saving, from the re-read worklist status. */
  function SavedMessage(status: MwlStatus): (key: string)
    ensures key == "radiology.savedFailWorklist" <==> status == SAVE_ERR || status == UPDATE_ERR
    ensures key != "radiology.savedFailWorklist" ==> key == "Order.saved"
  {
    if status == SAVE_ERR || status == UPDATE_ERR then "radiology.savedFailWorklist" else "Order.saved"
  }

  /** No effect in `log` is a worklist send. */
  predicate NothingSent(log: seq<Effect>) {
    forall k :: 0 <= k < |log| ==> !log[k].WorklistSent?
  }

  /** The id saveOrUpdate leaves on a row: the next one for a new row, its own otherwise. */
  function SavedId(id: Option<nat>, count: nat): (r: nat) {
    if id.None? then count + 1 else id.value
  }

  /** The study as the save branch leaves it: tied to its order and named by its instance uid. */
  function Stamped(study: RadiologyStudy, orderId: nat, studyId: nat, studyPrefix: string): (s: RadiologyStudy)
    ensures s.studyId == Some(studyId) && s.orderId == Some(orderId)
    ensures s.studyInstanceUid == Some(StudyUid.StudyInstanceUid(studyPrefix, studyId))
    ensures s.mwlStatus == study.mwlStatus && s.modality == study.modality && s.uuid == study.uuid
  {
    study.(studyId := Some(studyId), orderId := Some(orderId),
           studyInstanceUid := Some(StudyUid.StudyInstanceUid(studyPrefix, studyId)))
  }

  /** Both saves of the branch find their row: each object is new, or names a stored row. */
  ghost predicate Saveable(before: Tables, order: RadiologyOrder, study: RadiologyStudy) {
    && (order.orderId.Some? ==> 1 <= order.orderId.value <= |before.orders|)
    && (study.studyId.Some? ==> 1 <= study.studyId.value <= |before.studies|)
  }

  /** The study table once the save branch has committed. */
  ghost function CommittedStudies(before: Tables, order: RadiologyOrder, study: RadiologyStudy, studyPrefix: string)
    : (r: seq<RadiologyStudy>)
    requires Saveable(before, order, study)
  {
    var sid := SavedId(study.studyId, |before.studies|);
    Upsert(before.studies, sid, Stamped(study, SavedId(order.orderId, |before.orders|), sid, studyPrefix))
  }

  /**
   * The local commit of the save branch, from `before` to `after`: the order is saved, its study
   * is saved twice (the second time with its instance uid), and nothing is sent.
   */
  ghost predicate SaveCommitted(before: Tables, after: Tables, order: RadiologyOrder, study: RadiologyStudy,
                                studyPrefix: string)
  {
    && Saveable(before, order, study)
    && var oid := SavedId(order.orderId, |before.orders|);
    && var sid := SavedId(study.studyId, |before.studies|);
    && after.orders == Upsert(before.orders, oid, order.(orderId := Some(oid)))
    && after.studies == CommittedStudies(before, order, study, studyPrefix)
    && after.encounters == before.encounters && after.reports == before.reports
    && after.effects == before.effects + [OrderSaved(oid), StudySaved(sid), StudySaved(sid)]
  }

  /**
   * The save branch stopped by a stale study, from `before` to `after`: the order's save stays,
   * and nothing else is saved or sent.
   */
  ghost predicate OrderSavedAlone(before: Tables, after: Tables, order: RadiologyOrder) {
    var oid := SavedId(order.orderId, |before.orders|);
    && 1 <= oid <= |before.orders| + 1
    && after.orders == Upsert(before.orders, oid, order.(orderId := Some(oid)))
    && after.studies == before.studies && after.encounters == before.encounters && after.reports == before.reports
    && after.effects == before.effects + [OrderSaved(oid)]
  }

  /**
   * The whole save branch, from `before` to `after`: the local commit, then one Save_Order send
   * whose answer is written into the saved study, and the message chosen from that answer.
   */
  ghost predicate SavedAndSent(before: Tables, after: Tables, order: RadiologyOrder, study: RadiologyStudy,
                               studyPrefix: string, message: string)
  {
    && Saveable(before, order, study)
    && var oid := SavedId(order.orderId, |before.orders|);
    && var sid := SavedId(study.studyId, |before.studies|);
    && var committed := CommittedStudies(before, order, study, studyPrefix);
    && |after.studies| == |committed|
    && var status := after.studies[sid - 1].mwlStatus;
    && after.orders == Upsert(before.orders, oid, order.(orderId := Some(oid)))
    && after.studies == committed[sid - 1 := committed[sid - 1].(mwlStatus := status)]
    && after.encounters == before.encounters && after.reports == before.reports
    && after.effects == before.effects + [OrderSaved(oid), StudySaved(sid), StudySaved(sid), WorklistSent(sid, Save_Order)]
    && message == SavedMessage(status)
  }

  /** The save branch sends only after every local save. */
  lemma SaveCommitsFirst(before: Tables, after: Tables, order: RadiologyOrder, study: RadiologyStudy,
                         studyPrefix: string, message: string)
    requires SavedAndSent(before, after, order, study, studyPrefix, message)
    ensures |before.effects| < |after.effects| && after.effects[..|before.effects|] == before.effects
    ensures after.effects[|after.effects| - 1].WorklistSent?
    ensures CommitsBeforeSends(after.effects[|before.effects|..])
  {
    var oid := SavedId(order.orderId, |before.orders|);
    var sid := SavedId(study.studyId, |before.studies|);
    assert after.effects[|before.effects|..] == [OrderSaved(oid), StudySaved(sid), StudySaved(sid), WorklistSent(sid, Save_Order)];
  }

  /** The local commit of the save branch sends nothing. */
  lemma CommitSendsNothing(before: Tables, after: Tables, order: RadiologyOrder, study: RadiologyStudy,
                           studyPrefix: string)
    requires SaveCommitted(before, after, order, study, studyPrefix)
    ensures |before.effects| <= |after.effects| && after.effects[..|before.effects|] == before.effects
    ensures NothingSent(after.effects[|before.effects|..])
  {
    var oid := SavedId(order.orderId, |before.orders|);
    var sid := SavedId(study.studyId, |before.studies|);
    assert after.effects[|before.effects|..] == [OrderSaved(oid), StudySaved(sid), StudySaved(sid)];
  }

  /**
   * The local half of the saveOrder branch: save the order, save the study pointing at it, then
   * set the study's instance uid to `studyPrefix` followed by its id and save it again.  Returns
   * the order's and the study's ids.  A fault leaves the saves made before it in place.
   */
  method CommitOrderAndStudy(db: Database, order: RadiologyOrder, study: RadiologyStudy, studyPrefix: string)
    returns (r: Result<(nat, nat), Fault>)
    requires db.Valid()
    modifies db
    ensures db.Valid()
    ensures r.Success? <==> Saveable(old(db.State()), order, study)
    ensures r.Success? ==> SaveCommitted(old(db.State()), db.State(), order, study, studyPrefix)
    ensures r.Success? ==> r.value == (SavedId(order.orderId, |old(db.orders)|), SavedId(study.studyId, |old(db.studies)|))
    ensures r.Failure? ==> r.error == StaleObject && db.encounters == old(db.encounters) && db.reports == old(db.reports)
    ensures r.Failure? && order.orderId.Some? && !(1 <= order.orderId.value <= |old(db.orders)|) ==>
              db.State() == old(db.State())
    ensures r.Failure? && !(order.orderId.Some? && !(1 <= order.orderId.value <= |old(db.orders)|)) ==>
              var oid := SavedId(order.orderId, |old(db.orders)|);
              && 1 <= oid <= |old(db.orders)| + 1
              && db.orders == Upsert(old(db.orders), oid, order.(orderId := Some(oid)))
              && db.studies == old(db.studies)
              && db.effects == old(db.effects) + [OrderSaved(oid)]
    ensures r.Failure? ==>
              |old(db.effects)| <= |db.effects| && db.effects[..|old(db.effects)|] == old(db.effects)
              && NothingSent(db.effects[|old(db.effects)|..])
  {
    var saved := db.SaveOrder(order);
    if saved.Failure? {
      assert db.effects[|old(db.effects)|..] == [];
      return Failure(saved.error);
    }
    var orderId := saved.value.orderId.value;
    assert db.effects[|old(db.effects)|..] == [OrderSaved(orderId)];
    var studyId := SaveStampedStudy(db, study, orderId, studyPrefix);
    if studyId.Failure? {
      return Failure(studyId.error);
    }
    r := Success((orderId, studyId.value));
  }

  /**
   * Saves the study pointing at order `orderId`, then saves it again with its instance uid.
   * Returns the study's id; a study whose id has no row faults with nothing saved.
   */
  method SaveStampedStudy(db: Database, study: RadiologyStudy, orderId: nat, studyPrefix: string)
    returns (r: Result<nat, Fault>)
    requires db.Valid()
    modifies db
    ensures db.Valid()
    ensures db.orders == old(db.orders) && db.encounters == old(db.encounters) && db.reports == old(db.reports)
    ensures r.Success? <==> (study.studyId.Some? ==> 1 <= study.studyId.value <= |old(db.studies)|)
    ensures r.Failure? ==> r == Failure(StaleObject) && db.State() == old(db.State())
    ensures r.Success? ==>
              && r.value == SavedId(study.studyId, |old(db.studies)|)
              && db.studies == Upsert(old(db.studies), r.value, Stamped(study, orderId, r.value, studyPrefix))
              && db.effects == old(db.effects) + [StudySaved(r.value), StudySaved(r.value)]
  {
    var first := db.SaveRadiologyStudy(study.(orderId := Some(orderId)));
    if first.Failure? {
      return Failure(first.error);
    }
    var studyId := first.value.studyId.value;
    ghost var mid := db.effects;
    var second := db.SaveRadiologyStudy(first.value.(studyInstanceUid := Some(StudyUid.StudyInstanceUid(studyPrefix, studyId))));
    assert db.effects == mid + [StudySaved(studyId)];
    r := Success(studyId);
  }

  /**
   * The worklist half of the saveOrder branch: send Save_Order for the order's study, read its
   * status back and pick the message.  Only the study's worklist status changes.
   */
  method SendSaveOrder(db: Database, orderId: nat, studyId: nat) returns (r: Result<string, Fault>)
    requires db.Valid() && 1 <= studyId <= |db.studies| && db.studies[studyId - 1].orderId == Some(orderId)
    modifies db
    ensures db.Valid()
    ensures db.orders == old(db.orders) && db.encounters == old(db.encounters) && db.reports == old(db.reports)
    ensures r.Failure? <==> StudyDao.GetRadiologyStudyByOrderId(old(db.studies), orderId).NonUnique?
    ensures r.Failure? ==> r.error == NonUniqueResult && db.State() == old(db.State())
    ensures r.Success? ==>
              && |db.studies| == |old(db.studies)|
              && db.studies == old(db.studies)[studyId - 1 := old(db.studies)[studyId - 1].(mwlStatus := db.studies[studyId - 1].mwlStatus)]
              && db.effects == old(db.effects) + [WorklistSent(studyId, Save_Order)]
              && r.value == SavedMessage(db.studies[studyId - 1].mwlStatus)
  {
    match StudyDao.GetRadiologyStudyByOrderId(db.studies, orderId)
    case Absent =>
      assert false;
    case NonUnique =>
      r := Failure(NonUniqueResult);
    case Unique(s) =>
      UniqueLookupAt(db.studies, orderId, studyId - 1);
      ghost var before := db.studies;
      db.SendModalityWorklist(studyId, Save_Order);
      StatusWriteKeepsOrderLookup(before, orderId, studyId - 1, db.studies[studyId - 1].mwlStatus);
      var reread := StudyDao.GetRadiologyStudyByOrderId(db.studies, orderId);
      r := Success(SavedMessage(reread.value.mwlStatus));
  }

  /**
   * The saveOrder branch of executeCommand: commit locally, then send.  It goes through when both
   * saves find their row and the study lookup after the commit is not ambiguous; a fault after
   * the commit leaves the commit in place and nothing sent.
   */
  method SaveOrderBranch(db: Database, order: RadiologyOrder, study: RadiologyStudy, studyPrefix: string)
    returns (r: Result<string, Fault>)
    requires db.Valid()
    modifies db
    ensures db.Valid()
    ensures r.Success? <==>
              Saveable(old(db.State()), order, study)
              && !StudyDao.GetRadiologyStudyByOrderId(CommittedStudies(old(db.State()), order, study, studyPrefix),
                                                      SavedId(order.orderId, |old(db.orders)|)).NonUnique?
    ensures r.Success? ==> SavedAndSent(old(db.State()), db.State(), order, study, studyPrefix, r.value)
    ensures r.Failure? && Saveable(old(db.State()), order, study) ==>
              r.error == NonUniqueResult && SaveCommitted(old(db.State()), db.State(), order, study, studyPrefix)
    ensures r.Failure? && order.orderId.Some? && !(1 <= order.orderId.value <= |old(db.orders)|) ==>
              r.error == StaleObject && db.State() == old(db.State())
    ensures r.Failure? && !Saveable(old(db.State()), order, study)
            && !(order.orderId.Some? && !(1 <= order.orderId.value <= |old(db.orders)|)) ==>
              r.error == StaleObject && OrderSavedAlone(old(db.State()), db.State(), order)
    ensures r.Failure? ==>
              |old(db.effects)| <= |db.effects| && db.effects[..|old(db.effects)|] == old(db.effects)
              && NothingSent(db.effects[|old(db.effects)|..])
  {
    var committed := CommitOrderAndStudy(db, order, study, studyPrefix);
    if committed.Failure? {
      return Failure(committed.error);
    }
    var (orderId, studyId) := committed.value;
    ghost var before := old(db.State());
    ghost var middle := db.State();
    assert db.studies[studyId - 1] == Stamped(study, orderId, studyId, studyPrefix);
    r := SendSaveOrder(db, orderId, studyId);
    if r.Success? {
      SendCompletesSave(before, middle, db.State(), order, study, studyPrefix, r.value);
    } else {
      CommitSendsNothing(before, db.State(), order, study, studyPrefix);
    }
  }

  /** The local commit followed by the send of Save_Order for the saved study is the whole save branch. */
  lemma SendCompletesSave(before: Tables, middle: Tables, after: Tables, order: RadiologyOrder,
                          study: RadiologyStudy, studyPrefix: string, message: string)
    requires SaveCommitted(before, middle, order, study, studyPrefix)
    requires var sid := SavedId(study.studyId, |before.studies|);
             && 1 <= sid <= |middle.studies| == |after.studies|
             && after.studies == middle.studies[sid - 1 := middle.studies[sid - 1].(mwlStatus := after.studies[sid - 1].mwlStatus)]
             && after.orders == middle.orders && after.encounters == middle.encounters && after.reports == middle.reports
             && after.effects == middle.effects + [WorklistSent(sid, Save_Order)]
             && message == SavedMessage(after.studies[sid - 1].mwlStatus)
    ensures SavedAndSent(before, after, order, study, studyPrefix, message)
  {
    var oid := SavedId(order.orderId, |before.orders|);
    var sid := SavedId(study.studyId, |before.studies|);
    assert after.effects == before.effects + [OrderSaved(oid), StudySaved(sid), StudySaved(sid), WorklistSent(sid, Save_Order)];
  }

  /** Whether the older executeCommand returns true for an authenticated user, from the store before it. */
  ghost predicate LegacyCommandSucceeds(before: Tables, req: Request, order: RadiologyOrder, study: RadiologyStudy,
                                        studyPrefix: string)
  {
    match SelectLegacyCommand(req)
    case None => true
    case Some(c) =>
      if c == SaveOrder then
        Saveable(before, order, study)
        && !StudyDao.GetRadiologyStudyByOrderId(CommittedStudies(before, order, study, studyPrefix),
                                                SavedId(order.orderId, |before.orders|)).NonUnique?
      else GateOpen(before, order.orderId)
  }

  /**
   * Everything the older executeCommand does, from `before` to `after`, setting `session` to
   * `session'` and returning `ok`.
   */
  ghost predicate LegacyExecuted(before: Tables, after: Tables, authenticated: bool, req: Request,
                                 order: RadiologyOrder, study: RadiologyStudy, studyPrefix: string, now: Date,
                                 session: Session, session': Session, ok: bool)
  {
    && (ok <==> authenticated && LegacyCommandSucceeds(before, req, order, study, studyPrefix))
    && (!authenticated || SelectLegacyCommand(req).None? ==> session' == session && after == before)
    && (authenticated && !ok ==>
          session'.message == session.message && session'.error.Some? && session'.error.value.ExceptionMessage?)
    && (authenticated && !ok && SelectLegacyCommand(req) == Some(SaveOrder) ==>
          session'.error == Some(ExceptionMessage(if Saveable(before, order, study) then NonUniqueResult else StaleObject)))
    && (authenticated && !ok && SelectLegacyCommand(req) != Some(SaveOrder) ==>
          session'.error == Some(ExceptionMessage(GateFault(before, order.orderId))))
    && (authenticated && SelectLegacyCommand(req).Some? && ok ==>
          session'.error == session.error && session'.message.Some?)
    && (authenticated && SelectLegacyCommand(req) == Some(SaveOrder) ==>
          && (ok ==> SavedAndSent(before, after, order, study, studyPrefix, session'.message.value))
          && (!ok && Saveable(before, order, study) ==> SaveCommitted(before, after, order, study, studyPrefix))
          && (!ok && order.orderId.Some? && !(1 <= order.orderId.value <= |before.orders|) ==> after == before)
          && (!ok && !Saveable(before, order, study) && !(order.orderId.Some? && !(1 <= order.orderId.value <= |before.orders|)) ==>
                OrderSavedAlone(before, after, order)))
    && (authenticated && SelectLegacyCommand(req).Some? && SelectLegacyCommand(req) != Some(SaveOrder) ==>
          var c := SelectLegacyCommand(req).value;
          && (ok ==> Gated(before, after, order.orderId.value, ChangeFor(c, order), LegacySuccess(c), now,
                           session'.message.value))
          && (!ok ==> after == before))
  }

  /**
   * executeCommand: nothing for an unauthenticated user; otherwise the first button present runs.
   * A fault becomes the session's error and false; a refusal by the worklist is still true.
   * `studyPrefix` is Utils.studyPrefix().
   */
  method ExecuteCommand(db: Database, authenticated: bool, req: Request, order: RadiologyOrder,
                        study: RadiologyStudy, session: Session, studyPrefix: string, now: Date)
    returns (ok: bool, session': Session)
    requires db.Valid()
    modifies db
    ensures db.Valid()
    ensures LegacyExecuted(old(db.State()), db.State(), authenticated, req, order, study, studyPrefix, now,
                           session, session', ok)
  {
    if !authenticated {
      return false, session;
    }
    var command := SelectLegacyCommand(req);
    if command.None? {
      return true, session;
    }
    var c := command.value;
    var r: Result<string, Fault>;
    if c == SaveOrder {
      r := SaveOrderBranch(db, order, study, studyPrefix);
    } else {
      r := SendThenCommit(db, order.orderId, ChangeFor(c, order), LegacySuccess(c), now);
    }
    match r
    case Success(message) =>
      ok, session' := true, session.(message := Some(message));
    case Failure(f) =>
      ok, session' := false, session.(error := Some(ExceptionMessage(f)));
  }

  /**
   * The form's POST handler.  `setupOk` is what Study.setup answered for the submitted order and
   * study id; when it is false the command is not run and "radiology.studyPerformed" is the
   * error.  The order validator's findings are not consulted.
   */
  method Post(db: Database, setupOk: bool, authenticated: bool, req: Request, patientId: Option<nat>,
              order: RadiologyOrder, study: RadiologyStudy, session: Session, studyPrefix: string, now: Date)
    returns (view: View, session': Session)
    requires db.Valid()
    modifies db
    ensures db.Valid()
    ensures !setupOk ==>
              view == OrderForm && session' == session.(error := Some(ErrorKey("radiology.studyPerformed")))
              && db.State() == old(db.State())
    ensures setupOk ==>
              var ok := authenticated && LegacyCommandSucceeds(old(db.State()), req, order, study, studyPrefix);
              && view == (if ok then RedirectAfterSave(patientId) else OrderForm)
              && LegacyExecuted(old(db.State()), db.State(), authenticated, req, order, study, studyPrefix, now,
                                session, session', ok)
  {
    if !setupOk {
      return OrderForm, session.(error := Some(ErrorKey("radiology.studyPerformed")));
    }
    var ok;
    ok, session' := ExecuteCommand(db, authenticated, req, order, study, session, studyPrefix, now);
    view := if ok then RedirectAfterSave(patientId) else OrderForm;
  }
}
