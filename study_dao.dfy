// The read side of the study table: primary-key, uuid, order and study-instance-uid lookups,
// and the "studies of these orders" query.  The upsert lives with the store (Store.Database).

module StudyDao {
  import opened Wrappers
  import opened Entities
  import opened Collections

  /** Hibernate's session.get by primary key: the row whose id is `studyId`, or nothing. */
  function GetRadiologyStudy(studies: seq<RadiologyStudy>, studyId: nat): (r: Option<RadiologyStudy>)
    ensures r.Some? ==> r.value in studies && r.value.studyId == Some(studyId)
    ensures r.None? <==> forall i :: 0 <= i < |studies| ==> studies[i].studyId != Some(studyId)
  {
    match FirstIndex(studies, WithStudyId(studyId))
    case None => None
    case Some(i) => Some(studies[i])
  }

  /** With positional ids the primary-key lookup is plain indexing. */
  lemma GetRadiologyStudyIsIndexing(studies: seq<RadiologyStudy>, studyId: nat)
    requires StudyIdsArePositions(studies)
    ensures GetRadiologyStudy(studies, studyId)
         == if 1 <= studyId <= |studies| then Some(studies[studyId - 1]) else None
  {
    if 1 <= studyId <= |studies| {
      assert studies[studyId - 1].studyId == Some(studyId);
    }
  }

  function WithStudyId(studyId: nat): (r: RadiologyStudy -> bool) {
    (s: RadiologyStudy) => s.studyId == Some(studyId)
  }

  function WithUuid(uuid: string): (r: RadiologyStudy -> bool) {
    (s: RadiologyStudy) => s.uuid == uuid
  }

  function OfOrder(orderId: nat): (r: RadiologyStudy -> bool) {
    (s: RadiologyStudy) => s.orderId == Some(orderId)
  }

  function WithStudyInstanceUid(studyInstanceUid: string): (r: RadiologyStudy -> bool) {
    (s: RadiologyStudy) => s.studyInstanceUid == Some(studyInstanceUid)
  }

  /** `uniqueResult()` of the criteria uuid = `uuid`. */
  function GetRadiologyStudyByUuid(studies: seq<RadiologyStudy>, uuid: string): (r: Lookup<RadiologyStudy>)
    ensures r.Absent? <==> forall i :: 0 <= i < |studies| ==> studies[i].uuid != uuid
    ensures r.Unique? <==> ExactlyOne(studies, WithUuid(uuid))
    ensures r.Unique? ==> r.value in studies && r.value.uuid == uuid
  {
    UniqueLookupIff(studies, WithUuid(uuid));
    UniqueResult(Filter(studies, WithUuid(uuid)))
  }

  /** `uniqueResult()` of the query "studies whose order has id `orderId`". */
  function GetRadiologyStudyByOrderId(studies: seq<RadiologyStudy>, orderId: nat): (r: Lookup<RadiologyStudy>)
    ensures r.Absent? <==> forall i :: 0 <= i < |studies| ==> studies[i].orderId != Some(orderId)
    ensures r.Unique? <==> ExactlyOne(studies, OfOrder(orderId))
    ensures r.Unique? ==> r.value in studies && r.value.orderId == Some(orderId)
  {
    UniqueLookupIff(studies, OfOrder(orderId));
    UniqueResult(Filter(studies, OfOrder(orderId)))
  }

  /** `uniqueResult()` of the criteria studyInstanceUid = `studyInstanceUid` (exact match). */
  function GetRadiologyStudyByStudyInstanceUid(studies: seq<RadiologyStudy>, studyInstanceUid: string)
    : (r: Lookup<RadiologyStudy>)
    ensures r.Absent? <==> forall i :: 0 <= i < |studies| ==> studies[i].studyInstanceUid != Some(studyInstanceUid)
    ensures r.Unique? <==> ExactlyOne(studies, WithStudyInstanceUid(studyInstanceUid))
    ensures r.Unique? ==> r.value in studies && r.value.studyInstanceUid == Some(studyInstanceUid)
  {
    UniqueLookupIff(studies, WithStudyInstanceUid(studyInstanceUid));
    UniqueResult(Filter(studies, WithStudyInstanceUid(studyInstanceUid)))
  }

  /** A study of order `orderId` found at row `i` is what the order lookup returns, when it is the only one. */
  lemma GetRadiologyStudyByOrderIdFinds(studies: seq<RadiologyStudy>, orderId: nat, i: nat)
    requires i < |studies| && studies[i].orderId == Some(orderId)
    requires forall j :: 0 <= j < |studies| && j != i ==> studies[j].orderId != Some(orderId)
    ensures GetRadiologyStudyByOrderId(studies, orderId) == Unique(studies[i])
  {
    FilterOfExactlyOneAt(studies, OfOrder(orderId), i);
  }

  /**
   * addRestrictionOnRadiologyOrders: narrows `criteria` by "the study's order is one of
   * `orderIds`", and leaves it alone for an empty list.
   */
  function AddRestrictionOnRadiologyOrders(criteria: RadiologyStudy -> bool, orderIds: seq<nat>)
    : (r: RadiologyStudy -> bool)
    ensures orderIds == [] ==> r == criteria
    ensures forall s :: r(s) <==> criteria(s) && (orderIds == [] || (s.orderId.Some? && s.orderId.value in orderIds))
  {
    if orderIds == [] then criteria
    else s => criteria(s) && s.orderId.Some? && s.orderId.value in orderIds
  }

  /** The criteria of a fresh `createCriteria(RadiologyStudy.class)`: every study. */
  function AllStudies(): (r: RadiologyStudy -> bool) {
    (s: RadiologyStudy) => true
  }

  /**
   * The studies whose order is one of `orderIds`, in table order; an empty order list gives an
   * empty result, never a null one.
   */
  function GetRadiologyStudiesByRadiologyOrders(studies: seq<RadiologyStudy>, orderIds: seq<nat>)
    : (r: seq<RadiologyStudy>)
    ensures orderIds == [] ==> r == []
    ensures forall s :: s in r <==> s in studies && s.orderId.Some? && s.orderId.value in orderIds
    ensures IsSubsequence(r, studies)
  {
    if orderIds == [] then []
    else
      var criteria := AddRestrictionOnRadiologyOrders(AllStudies(), orderIds);
      FilterIsSubsequence(studies, criteria);
      Filter(studies, criteria)
  }

  /** An order with no study contributes nothing: the studies returned are those of the other orders. */
  lemma OrdersWithoutStudyContributeNothing(studies: seq<RadiologyStudy>, orderIds: seq<nat>, orderId: nat)
    requires forall i :: 0 <= i < |studies| ==> studies[i].orderId != Some(orderId)
    ensures GetRadiologyStudiesByRadiologyOrders(studies, orderIds + [orderId])
         == (if orderIds == [] then [] else GetRadiologyStudiesByRadiologyOrders(studies, orderIds))
  {
    if orderIds != [] {
      FilterSameOn(studies, AddRestrictionOnRadiologyOrders(AllStudies(), orderIds + [orderId]),
                   AddRestrictionOnRadiologyOrders(AllStudies(), orderIds));
    } else {
      assert orderIds + [orderId] == [orderId];
      var p := AddRestrictionOnRadiologyOrders(AllStudies(), [orderId]);
      FilterEmptyIff(studies, p);
    }
  }
}
