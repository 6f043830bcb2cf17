// The study service's argument checks in front of the study DAO, and its performed-status
// update.  Each check throws IllegalArgumentException with the message kept here.

module StudyService {
  import opened Wrappers
  import opened Entities
  import opened Collections
  import StudyDao
  import opened Store

  function GetRadiologyStudy(studies: seq<RadiologyStudy>, studyId: Option<nat>)
    : (r: Result<Option<RadiologyStudy>, Fault>)
    ensures r.Failure? <==> studyId.None?
    ensures r.Failure? ==> r.error == IllegalArgument("studyId cannot be null")
    ensures r.Success? && r.value.Some? ==> r.value.value in studies && r.value.value.studyId == studyId
    ensures r.Success? && r.value.None? ==> forall i :: 0 <= i < |studies| ==> studies[i].studyId != studyId
  {
    if studyId.None? then Failure(IllegalArgument("studyId cannot be null"))
    else Success(StudyDao.GetRadiologyStudy(studies, studyId.value))
  }

  function GetRadiologyStudyByUuid(studies: seq<RadiologyStudy>, uuid: Option<string>)
    : (r: Result<Lookup<RadiologyStudy>, Fault>)
    ensures r.Failure? <==> uuid.None?
    ensures r.Failure? ==> r.error == IllegalArgument("uuid cannot be null")
    ensures r.Success? && r.value.Unique? ==> r.value.value in studies && r.value.value.uuid == uuid.value
    ensures r.Success? && r.value.Absent? ==> forall i :: 0 <= i < |studies| ==> studies[i].uuid != uuid.value
    ensures uuid.Some? && (forall i :: 0 <= i < |studies| ==> studies[i].uuid != uuid.value) ==> r == Success(Absent)
    ensures uuid.Some? ==> (r.value.Unique? <==> ExactlyOne(studies, StudyDao.WithUuid(uuid.value)))
  {
    if uuid.None? then Failure(IllegalArgument("uuid cannot be null"))
    else Success(StudyDao.GetRadiologyStudyByUuid(studies, uuid.value))
  }

  function GetRadiologyStudyByOrderId(studies: seq<RadiologyStudy>, orderId: Option<nat>)
    : (r: Result<Lookup<RadiologyStudy>, Fault>)
    ensures r.Failure? <==> orderId.None?
    ensures r.Failure? ==> r.error == IllegalArgument("orderId cannot be null")
    ensures r.Success? && r.value.Unique? ==> r.value.value in studies && r.value.value.orderId == orderId
    ensures r.Success? && r.value.Absent? ==> forall i :: 0 <= i < |studies| ==> studies[i].orderId != orderId
    ensures orderId.Some? && (forall i :: 0 <= i < |studies| ==> studies[i].orderId != orderId) ==> r == Success(Absent)
    ensures orderId.Some? ==> (r.value.Unique? <==> ExactlyOne(studies, StudyDao.OfOrder(orderId.value)))
  {
    if orderId.None? then Failure(IllegalArgument("orderId cannot be null"))
    else Success(StudyDao.GetRadiologyStudyByOrderId(studies, orderId.value))
  }

  function GetRadiologyStudyByStudyInstanceUid(studies: seq<RadiologyStudy>, studyInstanceUid: Option<string>)
    : (r: Result<Lookup<RadiologyStudy>, Fault>)
    ensures r.Failure? <==> studyInstanceUid.None?
    ensures r.Failure? ==> r.error == IllegalArgument("studyInstanceUid cannot be null")
    ensures r.Success? && r.value.Unique? ==>
              r.value.value in studies && r.value.value.studyInstanceUid == studyInstanceUid
    ensures r.Success? && r.value.Absent? ==>
              forall i :: 0 <= i < |studies| ==> studies[i].studyInstanceUid != studyInstanceUid
    ensures studyInstanceUid.Some? && (forall i :: 0 <= i < |studies| ==> studies[i].studyInstanceUid != studyInstanceUid) ==>
              r == Success(Absent)
    ensures studyInstanceUid.Some? ==>
              (r.value.Unique? <==> ExactlyOne(studies, StudyDao.WithStudyInstanceUid(studyInstanceUid.value)))
  {
    if studyInstanceUid.None? then Failure(IllegalArgument("studyInstanceUid cannot be null"))
    else Success(StudyDao.GetRadiologyStudyByStudyInstanceUid(studies, studyInstanceUid.value))
  }

  function GetRadiologyStudiesByRadiologyOrders(studies: seq<RadiologyStudy>, orderIds: Option<seq<nat>>)
    : (r: Result<seq<RadiologyStudy>, Fault>)
    ensures r.Failure? <==> orderIds.None?
    ensures r.Failure? ==> r.error == IllegalArgument("radiologyOrders cannot be null")
    ensures r.Success? ==> forall s :: s in r.value <==> s in studies && s.orderId.Some? && s.orderId.value in orderIds.value
    ensures r.Success? ==> IsSubsequence(r.value, studies)
  {
    if orderIds.None? then Failure(IllegalArgument("radiologyOrders cannot be null"))
    else Success(StudyDao.GetRadiologyStudiesByRadiologyOrders(studies, orderIds.value))
  }

  /**
   * saveRadiologyStudy behind its null check.  A new study is created with the next id and the
   * study instance uid `uidOf` gives for that id (the generator is not part of this model); an
   * existing one is updated in place.  Either way the study saved is the one returned.
   */
  method SaveRadiologyStudy(db: Database, s: Option<RadiologyStudy>, uidOf: nat -> string)
    returns (r: Result<RadiologyStudy, Fault>)
    requires db.Valid()
    modifies db
    ensures db.Valid()
    ensures s.None? ==> r == Failure(IllegalArgument("radiologyStudy cannot be null")) && db.State() == old(db.State())
    ensures s.Some? && s.value.studyId.None? ==>
              var id := |old(db.studies)| + 1;
              && r == Success(s.value.(studyId := Some(id), studyInstanceUid := Some(uidOf(id))))
              && db.studies == old(db.studies) + [r.value]
              && db.effects == old(db.effects) + [StudySaved(id)]
    ensures s.Some? && s.value.studyId.Some? && 1 <= s.value.studyId.value <= |old(db.studies)| ==>
              r == Success(s.value) && db.studies == old(db.studies)[s.value.studyId.value - 1 := s.value]
              && db.effects == old(db.effects) + [StudySaved(s.value.studyId.value)]
    ensures s.Some? && s.value.studyId.Some? && !(1 <= s.value.studyId.value <= |old(db.studies)|) ==>
              r == Failure(StaleObject) && db.State() == old(db.State())
    ensures db.orders == old(db.orders) && db.encounters == old(db.encounters) && db.reports == old(db.reports)
  {
    if s.None? {
      return Failure(IllegalArgument("radiologyStudy cannot be null"));
    }
    var study := s.value;
    if study.studyId.None? {
      study := study.(studyInstanceUid := Some(uidOf(|db.studies| + 1)));
    }
    r := db.SaveRadiologyStudy(study);
  }

  /**
   * updateStudyPerformedStatus: rejects a null study instance uid, then a null status; otherwise
   * the one study with that uid gets the status, and nothing else changes.
   */
  method UpdateStudyPerformedStatus(db: Database, studyInstanceUid: Option<string>, status: Option<PerformedStatus>)
    returns (r: Result<RadiologyStudy, Fault>)
    requires db.Valid()
    modifies db
    ensures db.Valid()
    ensures studyInstanceUid.None? ==> r == Failure(IllegalArgument("studyInstanceUid cannot be null")) && db.State() == old(db.State())
    ensures studyInstanceUid.Some? && status.None? ==>
              r == Failure(IllegalArgument("performedStatus cannot be null")) && db.State() == old(db.State())
    ensures r.Failure? ==> db.State() == old(db.State())
    ensures studyInstanceUid.Some? && status.Some? ==>
              (r.Success? <==> ExactlyOne(old(db.studies), StudyDao.WithStudyInstanceUid(studyInstanceUid.value)))
    ensures studyInstanceUid.Some? && status.Some? && NoneMatch(old(db.studies), StudyDao.WithStudyInstanceUid(studyInstanceUid.value)) ==>
              r == Failure(StudyNotFound)
    ensures studyInstanceUid.Some? && status.Some? && r.Failure?
            && !NoneMatch(old(db.studies), StudyDao.WithStudyInstanceUid(studyInstanceUid.value)) ==>
              r == Failure(NonUniqueResult)
    ensures r.Success? ==>
              && studyInstanceUid.Some? && status.Some?
              && ExactlyOne(old(db.studies), StudyDao.WithStudyInstanceUid(studyInstanceUid.value))
              && r.value.studyId.Some? && 1 <= r.value.studyId.value <= |old(db.studies)|
              && r.value == old(db.studies)[r.value.studyId.value - 1].(performedStatus := status)
              && r.value.studyInstanceUid == studyInstanceUid
              && db.studies == old(db.studies)[r.value.studyId.value - 1 := r.value]
              && db.effects == old(db.effects) + [StudySaved(r.value.studyId.value)]
    ensures db.orders == old(db.orders) && db.encounters == old(db.encounters) && db.reports == old(db.reports)
  {
    if studyInstanceUid.None? {
      return Failure(IllegalArgument("studyInstanceUid cannot be null"));
    }
    if status.None? {
      return Failure(IllegalArgument("performedStatus cannot be null"));
    }
    match StudyDao.GetRadiologyStudyByStudyInstanceUid(db.studies, studyInstanceUid.value)
    case Absent => r := Failure(StudyNotFound);
    case NonUnique => r := Failure(NonUniqueResult);
    case Unique(s) =>
      var i :| 0 <= i < |db.studies| && db.studies[i] == s;
      r := db.SaveRadiologyStudy(s.(performedStatus := status));
  }
}
