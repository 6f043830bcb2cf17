/**
 * The persistent entities of the radiology module as values: orders, studies, encounters and
 * reports, and the closed enumerations they use.  A Java reference that may be null is an Option.
 */
module Entities {
  import opened Wrappers

  type Date = int
  type PatientId = nat
  type ProviderId = nat

  /** The performed procedure step status a device reports for a study. */
  datatype PerformedStatus = IN_PROGRESS | DISCONTINUED | COMPLETED

  /** The requested procedure priority of a study. */
  datatype RequestedProcedurePriority = STAT | HIGH | ROUTINE | MEDIUM | LOW

  function PriorityName(p: RequestedProcedurePriority): (r: string) {
    match p
    case STAT => "STAT"
    case HIGH => "HIGH"
    case ROUTINE => "ROUTINE"
    case MEDIUM => "MEDIUM"
    case LOW => "LOW"
  }

  /** Status of a report, as stored in the report table. */
  datatype ReportStatus = DRAFT | CLAIMED | COMPLETED | DISCONTINUED

  /**
   * Outcome of the last worklist message sent for a study.  The older controller tests the
   * SAVE_ERR / VOID_OK style of constant, the newer one the IN_SYNC / OUT_SYNC style.
   */
  datatype MwlStatus =
    | DEFAULT
    | SAVE_OK | SAVE_ERR | UPDATE_OK | UPDATE_ERR
    | VOID_OK | VOID_ERR | UNVOID_OK | UNVOID_ERR
    | DISCONTINUE_OK | DISCONTINUE_ERR | UNDISCONTINUE_OK | UNDISCONTINUE_ERR
    | IN_SYNC_SAVE_SUCCESS | OUT_SYNC_SAVE_FAILED
    | IN_SYNC_UPDATE_SUCCESS | OUT_SYNC_UPDATE_FAILED
    | IN_SYNC_VOID_SUCCESS | OUT_SYNC_VOID_FAILED
    | IN_SYNC_UNVOID_SUCCESS | OUT_SYNC_UNVOID_FAILED
    | IN_SYNC_DISCONTINUE_SUCCESS | OUT_SYNC_DISCONTINUE_FAILED
    | IN_SYNC_UNDISCONTINUE_SUCCESS | OUT_SYNC_UNDISCONTINUE_FAILED

  /** The two axes every status encodes: whether the worklist agrees, and which message it was. */
  datatype SyncState = Pending | InSync | OutOfSync
  datatype WorklistOperation = Save | Update | Void | Unvoid | Discontinue | Undiscontinue

  function SyncOf(s: MwlStatus): (r: SyncState) {
    match s
    case DEFAULT => Pending
    case SAVE_OK | UPDATE_OK | VOID_OK | UNVOID_OK | DISCONTINUE_OK | UNDISCONTINUE_OK => InSync
    case IN_SYNC_SAVE_SUCCESS | IN_SYNC_UPDATE_SUCCESS | IN_SYNC_VOID_SUCCESS
      | IN_SYNC_UNVOID_SUCCESS | IN_SYNC_DISCONTINUE_SUCCESS | IN_SYNC_UNDISCONTINUE_SUCCESS => InSync
    case _ => OutOfSync
  }

  function OperationOf(s: MwlStatus): (r: Option<WorklistOperation>) {
    match s
    case DEFAULT => None
    case SAVE_OK | SAVE_ERR | IN_SYNC_SAVE_SUCCESS | OUT_SYNC_SAVE_FAILED => Some(Save)
    case UPDATE_OK | UPDATE_ERR | IN_SYNC_UPDATE_SUCCESS | OUT_SYNC_UPDATE_FAILED => Some(Update)
    case VOID_OK | VOID_ERR | IN_SYNC_VOID_SUCCESS | OUT_SYNC_VOID_FAILED => Some(Void)
    case UNVOID_OK | UNVOID_ERR | IN_SYNC_UNVOID_SUCCESS | OUT_SYNC_UNVOID_FAILED => Some(Unvoid)
    case DISCONTINUE_OK | DISCONTINUE_ERR | IN_SYNC_DISCONTINUE_SUCCESS | OUT_SYNC_DISCONTINUE_FAILED =>
      Some(Discontinue)
    case _ => Some(Undiscontinue)
  }

  /** The enum constant's name(), as the order list shows it. */
  function MwlStatusName(s: MwlStatus): (r: string) {
    match s
    case DEFAULT => "DEFAULT"
    case SAVE_OK => "SAVE_OK"
    case SAVE_ERR => "SAVE_ERR"
    case UPDATE_OK => "UPDATE_OK"
    case UPDATE_ERR => "UPDATE_ERR"
    case VOID_OK => "VOID_OK"
    case VOID_ERR => "VOID_ERR"
    case UNVOID_OK => "UNVOID_OK"
    case UNVOID_ERR => "UNVOID_ERR"
    case DISCONTINUE_OK => "DISCONTINUE_OK"
    case DISCONTINUE_ERR => "DISCONTINUE_ERR"
    case UNDISCONTINUE_OK => "UNDISCONTINUE_OK"
    case UNDISCONTINUE_ERR => "UNDISCONTINUE_ERR"
    case IN_SYNC_SAVE_SUCCESS => "IN_SYNC_SAVE_SUCCESS"
    case OUT_SYNC_SAVE_FAILED => "OUT_SYNC_SAVE_FAILED"
    case IN_SYNC_UPDATE_SUCCESS => "IN_SYNC_UPDATE_SUCCESS"
    case OUT_SYNC_UPDATE_FAILED => "OUT_SYNC_UPDATE_FAILED"
    case IN_SYNC_VOID_SUCCESS => "IN_SYNC_VOID_SUCCESS"
    case OUT_SYNC_VOID_FAILED => "OUT_SYNC_VOID_FAILED"
    case IN_SYNC_UNVOID_SUCCESS => "IN_SYNC_UNVOID_SUCCESS"
    case OUT_SYNC_UNVOID_FAILED => "OUT_SYNC_UNVOID_FAILED"
    case IN_SYNC_DISCONTINUE_SUCCESS => "IN_SYNC_DISCONTINUE_SUCCESS"
    case OUT_SYNC_DISCONTINUE_FAILED => "OUT_SYNC_DISCONTINUE_FAILED"
    case IN_SYNC_UNDISCONTINUE_SUCCESS => "IN_SYNC_UNDISCONTINUE_SUCCESS"
    case OUT_SYNC_UNDISCONTINUE_FAILED => "OUT_SYNC_UNDISCONTINUE_FAILED"
  }

  /** The kind of message sent to the modality worklist. */
  datatype OrderRequest =
    Save_Order | Void_Order | Unvoid_Order | Discontinue_Order | Undiscontinue_Order | Default

  /**
   * An imaging study.  `orderId` is the study's reference to its order; `studyInstanceUid` is
   * the DICOM identifier; `mwlStatus` is written only by the worklist send.
   */
  datatype RadiologyStudy = RadiologyStudy(
    studyId: Option<nat>,
    uuid: string,
    orderId: Option<nat>,
    modality: Option<string>,
    studyInstanceUid: Option<string>,
    priority: Option<RequestedProcedurePriority>,
    scheduler: Option<ProviderId>,
    performedStatus: Option<PerformedStatus>,
    mwlStatus: MwlStatus)

  /** A study can still be scheduled while no device has reported a performed status for it. */
  predicate IsScheduleable(s: RadiologyStudy) {
    s.performedStatus.None?
  }

  datatype OrderAction = NEW | DISCONTINUE

  /**
   * A (radiology) order.  `dateStopped` and `discontinueReason` record a discontinuation;
   * `previousOrder` links a DISCONTINUE order to the order it stops; `study` is the study the
   * caller attached (the study table holds the persisted one).
   */
  datatype RadiologyOrder = RadiologyOrder(
    orderId: Option<nat>,
    uuid: string,
    patient: PatientId,
    orderer: Option<ProviderId>,
    startDate: Option<Date>,
    action: OrderAction,
    previousOrder: Option<nat>,
    encounter: Option<nat>,
    voided: bool,
    voidReason: Option<string>,
    dateStopped: Option<Date>,
    discontinueReason: Option<string>,
    study: Option<RadiologyStudy>)

  predicate IsDiscontinuedRightNow(o: RadiologyOrder, now: Date) {
    o.dateStopped.Some? && o.dateStopped.value <= now
  }

  predicate IsInProgress(o: RadiologyOrder) {
    o.study.Some? && o.study.value.performedStatus == Some(PerformedStatus.IN_PROGRESS)
  }

  predicate IsCompleted(o: RadiologyOrder) {
    o.study.Some? && o.study.value.performedStatus == Some(PerformedStatus.COMPLETED)
  }

  /** A clinical encounter; `orders` lists the ids of the orders added to it. */
  datatype Encounter = Encounter(
    patient: PatientId,
    provider: Option<ProviderId>,
    encounterDatetime: Date,
    orders: seq<nat>)

  /** A report on the study of order `orderId`. */
  datatype RadiologyReport = RadiologyReport(
    reportId: Option<nat>,
    uuid: string,
    orderId: nat,
    status: ReportStatus,
    principalResultsInterpreter: Option<ProviderId>,
    reportDate: Option<Date>)

  /** Exceptions thrown below the controllers, which the controllers catch. */
  datatype Fault =
    | NullId              // a lookup by a null id
    | OrderNotFound       // getOrder returned null and the controller dereferenced it
    | StudyNotFound       // no study for the order, so the worklist send gets null
    | NonUniqueResult     // Hibernate's uniqueResult found several rows
    | StaleObject         // saveOrUpdate of an object whose id has no row
    | IndexOutOfBounds    // get(0) of an empty list
    | NullDereference     // a method called on a null reference
    | NullOrderList       // a null order list handed on to code that rejects it
    | IllegalArgument(message: string)  // a rejected argument, with its message

  /** Generated ids are 1-based row positions: rows are never deleted. */
  ghost predicate OrderIdsArePositions(orders: seq<RadiologyOrder>) {
    forall i :: 0 <= i < |orders| ==> orders[i].orderId == Some(i + 1)
  }

  ghost predicate StudyIdsArePositions(studies: seq<RadiologyStudy>) {
    forall i :: 0 <= i < |studies| ==> studies[i].studyId == Some(i + 1)
  }

  ghost predicate ReportIdsArePositions(reports: seq<RadiologyReport>) {
    forall i :: 0 <= i < |reports| ==> reports[i].reportId == Some(i + 1)
  }
}
