// What the two order-form controllers share: which button of the form is acted on, the local
// change each status-gated button makes, and the send-then-commit step itself.  Saving commits
// locally first and sends afterwards; voiding, unvoiding, discontinuing and undiscontinuing send
// first and commit only when the worklist answered with that operation's success status.

module WorklistProtocol {
  import opened Wrappers
  import opened Entities
  import opened Collections
  import StudyDao
  import opened Store

  /** The session's error attribute: a message key, or the message of a caught exception. */
  datatype ErrorAttr = ErrorKey(key: string) | ExceptionMessage(fault: Fault)

  /** The two session attributes the controllers set for the next page. */
  datatype Session = Session(message: Option<string>, error: Option<ErrorAttr>)

  /** Where a form post ends up. */
  datatype View = OrderForm | RedirectOrderList | RedirectPatientDashboard(patientId: nat)

  /** The page after a successful post: the order list, or the dashboard of the given patient. */
  function RedirectAfterSave(patientId: Option<nat>): (v: View)
    ensures v != OrderForm
    ensures v == RedirectOrderList <==> patientId.None?
    ensures v.RedirectPatientDashboard? ==> patientId == Some(v.patientId)
  {
    match patientId
    case None => RedirectOrderList
    case Some(id) => RedirectPatientDashboard(id)
  }

  /** The request parameters naming a button; several may be present at once. */
  datatype Request = Request(
    saveOrder: bool, voidOrder: bool, unvoidOrder: bool, discontinueOrder: bool, undiscontinueOrder: bool)

  datatype Command = SaveOrder | VoidOrder | UnvoidOrder | DiscontinueOrder | UndiscontinueOrder

  function Present(req: Request, c: Command): (r: bool) {
    match c
    case SaveOrder => req.saveOrder
    case VoidOrder => req.voidOrder
    case UnvoidOrder => req.unvoidOrder
    case DiscontinueOrder => req.discontinueOrder
    case UndiscontinueOrder => req.undiscontinueOrder
  }

  /** Position of a button in the controllers' if / else-if chain. */
  function Rank(c: Command): (r: nat) {
    match c
    case SaveOrder => 0
    case VoidOrder => 1
    case UnvoidOrder => 2
    case DiscontinueOrder => 3
    case UndiscontinueOrder => 4
  }

  /**
   * The older controller's chain: at most one command runs, the present one ranked first.
   */
  function SelectLegacyCommand(req: Request): (r: Option<Command>)
    ensures r.Some? ==> Present(req, r.value) && forall c :: Rank(c) < Rank(r.value) ==> !Present(req, c)
    ensures r.None? <==> !req.saveOrder && !req.voidOrder && !req.unvoidOrder && !req.discontinueOrder && !req.undiscontinueOrder
  {
    if req.saveOrder then Some(SaveOrder)
    else if req.voidOrder then Some(VoidOrder)
    else if req.unvoidOrder then Some(UnvoidOrder)
    else if req.discontinueOrder then Some(DiscontinueOrder)
    else if req.undiscontinueOrder then Some(UndiscontinueOrder)
    else None
  }

  /** The newer controller's chain: saving has its own handler, so the chain starts at voidOrder. */
  function SelectCommand(req: Request): (r: Option<Command>)
    ensures r.Some? ==> r.value != SaveOrder && Present(req, r.value)
    ensures r.Some? ==> forall c :: c != SaveOrder && Rank(c) < Rank(r.value) ==> !Present(req, c)
    ensures r.None? <==> !req.voidOrder && !req.unvoidOrder && !req.discontinueOrder && !req.undiscontinueOrder
  {
    if req.voidOrder then Some(VoidOrder)
    else if req.unvoidOrder then Some(UnvoidOrder)
    else if req.discontinueOrder then Some(DiscontinueOrder)
    else if req.undiscontinueOrder then Some(UndiscontinueOrder)
    else None
  }

  /** Both chains agree once the save button is disregarded. */
  lemma SelectCommandIgnoresSave(req: Request)
    ensures SelectCommand(req) == SelectLegacyCommand(req.(saveOrder := false))
  {
  }

  /** The message each command sends to the worklist. */
  function RequestOf(c: Command): (r: OrderRequest) {
    match c
    case SaveOrder => Save_Order
    case VoidOrder => Void_Order
    case UnvoidOrder => Unvoid_Order
    case DiscontinueOrder => Discontinue_Order
    case UndiscontinueOrder => Undiscontinue_Order
  }

  /** The status the older controller reads as success for a gated command. */
  function LegacySuccess(c: Command): (r: MwlStatus)
    requires c != SaveOrder
  {
    match c
    case VoidOrder => VOID_OK
    case UnvoidOrder => UNVOID_OK
    case DiscontinueOrder => DISCONTINUE_OK
    case UndiscontinueOrder => UNDISCONTINUE_OK
  }

  /** The status the newer controller reads as success for a gated command. */
  function InSyncSuccess(c: Command): (r: MwlStatus)
    requires c != SaveOrder
  {
    match c
    case VoidOrder => IN_SYNC_VOID_SUCCESS
    case UnvoidOrder => IN_SYNC_UNVOID_SUCCESS
    case DiscontinueOrder => IN_SYNC_DISCONTINUE_SUCCESS
    case UndiscontinueOrder => IN_SYNC_UNDISCONTINUE_SUCCESS
  }

  function OperationOfCommand(c: Command): (r: WorklistOperation) {
    match c
    case SaveOrder => Save
    case VoidOrder => Void
    case UnvoidOrder => Unvoid
    case DiscontinueOrder => Discontinue
    case UndiscontinueOrder => Undiscontinue
  }

  predicate IsInSyncStyle(s: MwlStatus) {
    s.IN_SYNC_SAVE_SUCCESS? || s.OUT_SYNC_SAVE_FAILED? || s.IN_SYNC_UPDATE_SUCCESS? || s.OUT_SYNC_UPDATE_FAILED?
    || s.IN_SYNC_VOID_SUCCESS? || s.OUT_SYNC_VOID_FAILED? || s.IN_SYNC_UNVOID_SUCCESS? || s.OUT_SYNC_UNVOID_FAILED?
    || s.IN_SYNC_DISCONTINUE_SUCCESS? || s.OUT_SYNC_DISCONTINUE_FAILED?
    || s.IN_SYNC_UNDISCONTINUE_SUCCESS? || s.OUT_SYNC_UNDISCONTINUE_FAILED?
  }

  /**
   * Each success table picks, within its generation of constants, exactly the status that says
   * the worklist is in sync after that very operation.
   */
  lemma SuccessStatusesAreInSyncForTheirOperation(c: Command, s: MwlStatus)
    requires c != SaveOrder
    ensures s == LegacySuccess(c) <==>
              !IsInSyncStyle(s) && SyncOf(s) == InSync && OperationOf(s) == Some(OperationOfCommand(c))
    ensures s == InSyncSuccess(c) <==>
              IsInSyncStyle(s) && SyncOf(s) == InSync && OperationOf(s) == Some(OperationOfCommand(c))
  {
  }

  /** The local change a gated command commits, with the values the form carried. */
  datatype LocalChange =
    | Voiding(voidReason: Option<string>)
    | Unvoiding
    | Discontinuing(discontinuedReason: Option<string>, discontinuedDate: Option<Date>)
    | Undiscontinuing

  function CommandOf(change: LocalChange): (r: Command) {
    match change
    case Voiding(_) => VoidOrder
    case Unvoiding => UnvoidOrder
    case Discontinuing(_, _) => DiscontinueOrder
    case Undiscontinuing => UndiscontinueOrder
  }

  /** The local change a gated command makes, with the reason and date the form carried. */
  function ChangeFor(c: Command, form: RadiologyOrder): (change: LocalChange)
    requires c != SaveOrder
    ensures CommandOf(change) == c
  {
    match c
    case VoidOrder => Voiding(form.voidReason)
    case UnvoidOrder => Unvoiding
    case DiscontinueOrder => Discontinuing(form.discontinueReason, form.dateStopped)
    case UndiscontinueOrder => Undiscontinuing
  }

  /**
   * OrderService.voidOrder / unvoidOrder / discontinueOrder / undiscontinueOrder applied to the
   * stored order `o`; a discontinuation without a date takes effect `now`.
   */
  function Applied(o: RadiologyOrder, change: LocalChange, now: Date): (r: RadiologyOrder)
    ensures r.orderId == o.orderId && r.patient == o.patient && r.study == o.study
    ensures change.Voiding? ==> r.voided && r.voidReason == change.voidReason
    ensures change.Unvoiding? ==> !r.voided
    ensures change.Discontinuing? ==> IsDiscontinuedRightNow(r, change.discontinuedDate.GetOr(now))
    ensures change.Undiscontinuing? ==> forall t :: !IsDiscontinuedRightNow(r, t)
  {
    match change
    case Voiding(reason) => o.(voided := true, voidReason := reason)
    case Unvoiding => o.(voided := false, voidReason := None)
    case Discontinuing(reason, date) => o.(dateStopped := Some(date.GetOr(now)), discontinueReason := reason)
    case Undiscontinuing => o.(dateStopped := None, discontinueReason := None)
  }

  /** Undiscontinuing a discontinued order gives back the order it was. */
  lemma UndiscontinueUndoesDiscontinue(o: RadiologyOrder, reason: Option<string>, date: Option<Date>, now: Date)
    requires o.dateStopped.None? && o.discontinueReason.None?
    ensures Applied(Applied(o, Discontinuing(reason, date), now), Undiscontinuing, now) == o
  {
  }

  /** Unvoiding a voided order gives back the order it was. */
  lemma UnvoidUndoesVoid(o: RadiologyOrder, reason: Option<string>, now: Date)
    requires !o.voided && o.voidReason.None?
    ensures Applied(Applied(o, Voiding(reason), now), Unvoiding, now) == o
  {
  }

  function EffectOf(change: LocalChange, orderId: nat): (r: Effect) {
    match change
    case Voiding(_) => OrderVoided(orderId)
    case Unvoiding => OrderUnvoided(orderId)
    case Discontinuing(_, _) => OrderDiscontinued(orderId)
    case Undiscontinuing => OrderUndiscontinued(orderId)
  }

  /** The message key a committed change leaves. */
  function SuccessMessage(change: LocalChange): (r: string) {
    match change
    case Voiding(_) => "Order.voidedSuccessfully"
    case Unvoiding => "Order.unvoidedSuccessfully"
    case Discontinuing(_, _) => "Order.discontinuedSuccessfully"
    case Undiscontinuing => "Order.undiscontinuedSuccessfully"
  }

  /** Writing a study's worklist status leaves the by-order lookup pointing at that study. */
  lemma StatusWriteKeepsOrderLookup(studies: seq<RadiologyStudy>, orderId: nat, i: nat, status: MwlStatus)
    requires i < |studies|
    requires StudyDao.GetRadiologyStudyByOrderId(studies, orderId) == Unique(studies[i])
    ensures StudyDao.GetRadiologyStudyByOrderId(studies[i := studies[i].(mwlStatus := status)], orderId)
         == Unique(studies[i].(mwlStatus := status))
  {
    var p := StudyDao.OfOrder(orderId);
    assert p(studies[i]);
    var k :| 0 <= k < |studies| && p(studies[k]) && forall j :: 0 <= j < |studies| && p(studies[j]) ==> j == k;
    var updated := studies[i := studies[i].(mwlStatus := status)];
    forall j | 0 <= j < |updated| && j != i
      ensures updated[j].orderId != Some(orderId)
    {
      assert updated[j] == studies[j];
    }
    StudyDao.GetRadiologyStudyByOrderIdFinds(updated, orderId, i);
  }

  /** When the by-order lookup is unique, it is the study at any row that belongs to the order. */
  lemma UniqueLookupAt(studies: seq<RadiologyStudy>, orderId: nat, i: nat)
    requires i < |studies| && studies[i].orderId == Some(orderId)
    requires StudyDao.GetRadiologyStudyByOrderId(studies, orderId).Unique?
    ensures StudyDao.GetRadiologyStudyByOrderId(studies, orderId) == Unique(studies[i])
  {
    var p := StudyDao.OfOrder(orderId);
    var v := StudyDao.GetRadiologyStudyByOrderId(studies, orderId).value;
    assert p(studies[i]);
    var k :| 0 <= k < |studies| && p(studies[k]) && forall j :: 0 <= j < |studies| && p(studies[j]) ==> j == k;
    var j :| 0 <= j < |studies| && studies[j] == v;
    assert p(studies[j]);
  }

  /** A unique study found in a table with positional ids sits at the row its id names. */
  lemma UniqueStudyRow(studies: seq<RadiologyStudy>, s: RadiologyStudy)
    requires StudyIdsArePositions(studies) && s in studies
    ensures s.studyId.Some? && 1 <= s.studyId.value <= |studies| && studies[s.studyId.value - 1] == s
  {
    var i :| 0 <= i < |studies| && studies[i] == s;
  }

  /**
   * What a gated command that got past its lookups did to the store, going from `before` to
   * `after`: the one study of order `id` got whatever worklist status came back, and the stored
   * order took `change` exactly when that status is `success`.  `message` is the key it set.
   */
  ghost predicate Gated(before: Tables, after: Tables, id: nat, change: LocalChange, success: MwlStatus,
                        now: Date, message: string)
  {
    && 1 <= id <= |before.orders|
    && StudyDao.GetRadiologyStudyByOrderId(before.studies, id).Unique?
    && var study := StudyDao.GetRadiologyStudyByOrderId(before.studies, id).value;
    && study.studyId.Some? && 1 <= study.studyId.value <= |before.studies| == |after.studies|
    && var row := study.studyId.value - 1;
    && var status := after.studies[row].mwlStatus;
    && before.studies[row] == study
    && after.studies == before.studies[row := study.(mwlStatus := status)]
    && after.encounters == before.encounters && after.reports == before.reports
    && (status == success ==>
          && after.orders == before.orders[id - 1 := Applied(before.orders[id - 1], change, now)]
          && after.effects == before.effects + [WorklistSent(row + 1, RequestOf(CommandOf(change))), EffectOf(change, id)]
          && message == SuccessMessage(change))
    && (status != success ==>
          && after.orders == before.orders
          && after.effects == before.effects + [WorklistSent(row + 1, RequestOf(CommandOf(change)))]
          && message == "radiology.failWorklist")
  }

  /** A gated command extends the log, and what it adds starts with the send: nothing is committed before it. */
  lemma GatedSendsFirst(before: Tables, after: Tables, id: nat, change: LocalChange, success: MwlStatus,
                        now: Date, message: string)
    requires Gated(before, after, id, change, success, now, message)
    ensures |before.effects| < |after.effects| && after.effects[..|before.effects|] == before.effects
    ensures after.effects[|before.effects|].WorklistSent?
    ensures SendsBeforeCommits(after.effects[|before.effects|..])
  {
    var study := StudyDao.GetRadiologyStudyByOrderId(before.studies, id).value;
    var row := study.studyId.value - 1;
    var sent := WorklistSent(row + 1, RequestOf(CommandOf(change)));
    if after.studies[row].mwlStatus == success {
      assert after.effects[|before.effects|..] == [sent, EffectOf(change, id)];
    } else {
      assert after.effects[|before.effects|..] == [sent];
    }
  }

  /** A gated command gets past its lookups: the form names a stored order that has exactly one study. */
  ghost predicate GateOpen(before: Tables, orderId: Option<nat>) {
    orderId.Some? && 1 <= orderId.value <= |before.orders|
    && StudyDao.GetRadiologyStudyByOrderId(before.studies, orderId.value).Unique?
  }

  /** The fault the gated part raises when the gate is shut, checked in the order the code checks. */
  function GateFault(before: Tables, orderId: Option<nat>): (f: Fault) {
    if orderId.None? then NullId
    else if !(1 <= orderId.value <= |before.orders|) then OrderNotFound
    else if StudyDao.GetRadiologyStudyByOrderId(before.studies, orderId.value).Absent? then StudyNotFound
    else NonUniqueResult
  }

  /**
   * The gated part of executeCommand for order `orderId` (None when the form had no id): look
   * the order and its study up, send `RequestOf(CommandOf(change))` for that study, re-read the
   * study's status, and apply `change` to the stored order only if the status is `success`.
   * Faults can happen only before the send, and leave the store as it was.  The result is the
   * message key set on success, whatever the worklist said.
   */
  method SendThenCommit(db: Database, orderId: Option<nat>, change: LocalChange, success: MwlStatus, now: Date)
    returns (r: Result<string, Fault>)
    requires db.Valid()
    modifies db
    ensures db.Valid()
    ensures r.Success? <==> GateOpen(old(db.State()), orderId)
    ensures r.Failure? ==> db.State() == old(db.State())
    ensures orderId.None? ==> r == Failure(NullId)
    ensures orderId.Some? && !(1 <= orderId.value <= |old(db.orders)|) ==> r == Failure(OrderNotFound)
    ensures r.Failure? && orderId.Some? && 1 <= orderId.value <= |old(db.orders)| ==>
              r.error == (if StudyDao.GetRadiologyStudyByOrderId(old(db.studies), orderId.value).Absent? then StudyNotFound
                          else NonUniqueResult)
    ensures r.Failure? ==> r.error == GateFault(old(db.State()), orderId)
    ensures r.Success? ==> Gated(old(db.State()), db.State(), orderId.value, change, success, now, r.value)
  {
    if orderId.None? {
      return Failure(NullId);
    }
    var id := orderId.value;
    var o := db.GetOrder(id);
    if o.None? {
      return Failure(OrderNotFound);
    }
    match StudyDao.GetRadiologyStudyByOrderId(db.studies, id)
    case Absent =>
      return Failure(StudyNotFound);
    case NonUnique =>
      return Failure(NonUniqueResult);
    case Unique(study) =>
      var message := SendAndGate(db, id, change, success, now);
      r := Success(message);
  }

  /**
   * The send-then-commit step proper, for a stored order `id` with exactly one study: send,
   * re-read the study's status through the by-order lookup, and commit only on `success`.
   */
  method SendAndGate(db: Database, id: nat, change: LocalChange, success: MwlStatus, now: Date)
    returns (message: string)
    requires db.Valid() && GateOpen(db.State(), Some(id))
    modifies db
    ensures db.Valid()
    ensures Gated(old(db.State()), db.State(), id, change, success, now, message)
  {
    var o := db.GetOrder(id);
    var study := StudyDao.GetRadiologyStudyByOrderId(db.studies, id).value;
    UniqueStudyRow(db.studies, study);
    var row := study.studyId.value - 1;
    db.SendModalityWorklist(row + 1, RequestOf(CommandOf(change)));
    StatusWriteKeepsOrderLookup(old(db.studies), id, row, db.studies[row].mwlStatus);
    var reread := StudyDao.GetRadiologyStudyByOrderId(db.studies, id);
    if reread.value.mwlStatus == success {
      db.UpdateOrder(id, Applied(o.value, change, now), EffectOf(change, id));
      message := SuccessMessage(change);
    } else {
      message := "radiology.failWorklist";
    }
  }
}
