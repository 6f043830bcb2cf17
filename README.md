# Radiology order lifecycle, in Dafny

A model of the core of the OpenMRS radiology module (akhilrv/Radiology). It covers:

- **Placing and discontinuing radiology orders** (`RadiologyOrderServiceImpl`). Each is a fixed
  chain of argument checks, each with its own message, followed by the saves: an encounter,
  then the order, then the study.
- **The two generations of the order form controller.**
  - Saving commits the order and its study locally and only then sends `Save_Order` to the
    modality worklist. The worklist's answer chooses the message and never undoes the commit.
  - Voiding, unvoiding, discontinuing and undiscontinuing send to the worklist first. They
    re-read the study's worklist status and change the order only when that status is the
    operation's success value: `VOID_OK`, ... for the older controller, `IN_SYNC_VOID_SUCCESS`,
    ... for the newer one.
- **The read side of the report and study tables** (`HibernateRadiologyReportDAO`,
  `HibernateRadiologyStudyDAO`, and the study service's argument checks).
- **The order search portlet** (`PortletsController`): the start-date window filter and the seven
  parallel columns built for the studies of the matched orders.

How the model is built:

- **The store.** All tables are one `Store.Database` object: orders, studies, encounters and
  reports, plus an ordered log of every side effect. Ids are row positions, because rows are
  never deleted.
- **Effect order.** The log is how the model states which effect happens before which:
  - every check precedes the first save;
  - saving commits before it sends;
  - the gated commands send before they commit.
- **The worklist send** writes an arbitrary status into the one study it is about, since the
  worklist itself is outside the model.
- **Hibernate's `uniqueResult()`** is `Collections.Lookup`: absent, unique, or several rows.
- **Java's null** is `Option`.
- **An exception** is a `Fault` value.

Files: `wrappers.dfy` (Option, Result), `entities.dfy`, `collections.dfy` (filtering and
subsequence lemmas), `study_uid.dfy`, `study_dao.dfy`, `report_dao.dfy`, `store.dfy`,
`study_service.dfy`, `order_service.dfy`, `worklist_protocol.dfy`, `legacy_order_form.dfy`,
`order_form.dfy`, `portlets.dfy`.

## Model

| member | source | states |
|---|---|---|
| OrderService.PlaceRejection | api/src/main/java/org/openmrs/module/radiology/order/RadiologyOrderServiceImpl.java:68-83 | The first failing check, in source order, with its own message: null order, existing orderId, null study, null modality. None exactly when all four pass. |
| OrderService.PlaceRadiologyOrder | api/src/main/java/org/openmrs/module/radiology/order/RadiologyOrderServiceImpl.java:66-96 | A rejected order fails with its check's message and nothing stored. Otherwise the log gains exactly EncounterSaved, OrderSaved, StudySaved, in that order. The new encounter has the order's patient and orderer and lists the order. The study is saved through the study service, pointing at the new order: a new study becomes the next study row with the generated study instance uid for its id, an existing one replaces its row, and the returned order carries the study as stored. A failing study save rolls everything back. A valid order with a new study always succeeds. |
| Store.Database.SaveEncounter | api/src/main/java/org/openmrs/module/radiology/order/RadiologyOrderServiceImpl.java:107-114 | saveRadiologyOrderEncounter's save: one new encounter appended, logged, other tables untouched. |
| Store.Database.AddOrderToEncounter | api/src/main/java/org/openmrs/module/radiology/order/RadiologyOrderServiceImpl.java:87 | encounter.addOrder: only that encounter's order list gains the order id. |
| Store.Database.SaveOrder | api/src/main/java/org/openmrs/module/radiology/order/RadiologyOrderServiceImpl.java:93 | OrderService.saveOrder as a saveOrUpdate on the order table. A new order gets the next id and is appended; an order whose id has a row replaces it; both are logged as OrderSaved and returned as stored. An id with no row is a stale-object fault with nothing changed. The other tables are untouched. |
| Store.Database.Restore | api/src/main/java/org/openmrs/module/radiology/order/RadiologyOrderServiceImpl.java:65 | The rollback of a failed @Transactional call: every table and the effect log are put back exactly as given. |
| Store.Database.UpdateOrder | omod/src/main/java/org/openmrs/module/radiology/web/controller/RadiologyOrderFormController.java:236-266 | The write of voidOrder / unvoidOrder / discontinueOrder / undiscontinueOrder: only that stored order is replaced, the given effect is logged, and the other tables are untouched. |
| OrderService.DiscontinueRejection | api/src/main/java/org/openmrs/module/radiology/order/RadiologyOrderServiceImpl.java:125-147 | The first failing check, in source order: null, no orderId, already discontinued, in progress, completed, null provider. None exactly when all pass. |
| OrderService.DiscontinueRadiologyOrder | api/src/main/java/org/openmrs/module/radiology/order/RadiologyOrderServiceImpl.java:122-154 | A rejected call fails with its message and nothing stored. Otherwise an encounter for the order's patient and the given provider is saved first. The stored order is then stopped now, and a DISCONTINUE order pointing back to it is saved and returned, carrying the reason and that encounter. Log: EncounterSaved, OrderDiscontinued, OrderSaved. |
| OrderService.GetRadiologyOrder | api/src/main/java/org/openmrs/module/radiology/order/RadiologyOrderServiceImpl.java:160-167 | A null id is IllegalArgument("orderId cannot be null"). Otherwise the result is the order with that id, or none exactly when no such row exists. |
| OrderService.GetRadiologyOrderByUuid | api/src/main/java/org/openmrs/module/radiology/order/RadiologyOrderServiceImpl.java:173-180 | A null uuid is IllegalArgument. Otherwise the result is absent iff no order has the uuid, unique iff exactly one does, and that order when unique. |
| OrderService.GetRadiologyOrdersByPatient | api/src/main/java/org/openmrs/module/radiology/order/RadiologyOrderServiceImpl.java:186-193 | A null patient is IllegalArgument. Otherwise exactly the patient's orders, in table order. |
| OrderService.GetRadiologyOrdersByPatients | api/src/main/java/org/openmrs/module/radiology/order/RadiologyOrderServiceImpl.java:199-206 | A null list is IllegalArgument. Otherwise exactly the orders of the listed patients, in table order. |
| Store.Upsert | api/src/main/java/org/openmrs/module/radiology/study/HibernateRadiologyStudyDAO.java:45-49 | saveOrUpdate on a table: a new row at the end for the next id, otherwise that row replaced, and every other row unchanged. |
| Store.Database.SaveRadiologyStudy | api/src/main/java/org/openmrs/module/radiology/study/HibernateRadiologyStudyDAO.java:45-49 | A new study gets the next id and is appended. A study with a stored id replaces that row. The study saved is the one returned. An id with no row is a stale-object fault with nothing changed. |
| Store.Database.SaveRadiologyReport | api/src/main/java/org/openmrs/module/radiology/report/HibernateRadiologyReportDAO.java:66-70 | The same upsert on the report table, returning the report saved. |
| Store.Database.GetStudy | api/src/main/java/org/openmrs/module/radiology/study/HibernateRadiologyStudyDAO.java:55-58 | session.get on the study table: present exactly for a stored id, and then that row. |
| Store.Database.GetOrder | omod/src/main/java/org/openmrs/module/radiology/web/controller/RadiologyOrderFormController.java:220 | OrderService.getOrder: present exactly for a stored id, and then that row with that id. |
| Store.Database.SendModalityWorklist | omod/src/main/java/org/openmrs/module/radiology/web/controller/RadiologyOrderFormController.java:221-222 | The send changes only that study's worklist status, to any value, and logs the send. |
| StudyDao.GetRadiologyStudy | api/src/main/java/org/openmrs/module/radiology/study/HibernateRadiologyStudyDAO.java:55-58 | The study with that id, or none exactly when no study has it. |
| StudyDao.GetRadiologyStudyIsIndexing | api/src/main/java/org/openmrs/module/radiology/study/HibernateRadiologyStudyDAO.java:55-58 | With positional ids the primary-key lookup is row indexing. |
| StudyDao.GetRadiologyStudyByUuid | api/src/main/java/org/openmrs/module/radiology/study/HibernateRadiologyStudyDAO.java:64-70 | uniqueResult of uuid equality: absent iff no match, unique iff exactly one match, and then that study. |
| StudyDao.GetRadiologyStudyByOrderId | api/src/main/java/org/openmrs/module/radiology/study/HibernateRadiologyStudyDAO.java:76-81 | uniqueResult of "the study's order has this id": absent iff none, unique iff exactly one, and then that study. |
| StudyDao.GetRadiologyStudyByStudyInstanceUid | api/src/main/java/org/openmrs/module/radiology/study/HibernateRadiologyStudyDAO.java:87-92 | uniqueResult of exact uid equality: absent iff none, unique iff exactly one, and then that study. |
| StudyDao.GetRadiologyStudyByOrderIdFinds | api/src/test/java/org/openmrs/module/radiology/study/RadiologyStudyServiceComponentTest.java:290-304 | The only study of an order is what the by-order lookup returns. |
| StudyDao.AddRestrictionOnRadiologyOrders | api/src/main/java/org/openmrs/module/radiology/study/HibernateRadiologyStudyDAO.java:122-126 | An empty order list leaves the criteria alone. Otherwise it adds "the study's order is in the list". |
| StudyDao.GetRadiologyStudiesByRadiologyOrders | api/src/main/java/org/openmrs/module/radiology/study/HibernateRadiologyStudyDAO.java:99-113 | An empty order list gives an empty list, never null. Otherwise the result is exactly the studies whose order is listed, in table order. |
| StudyDao.OrdersWithoutStudyContributeNothing | api/src/test/java/org/openmrs/module/radiology/study/RadiologyStudyServiceComponentTest.java:387-404 | Adding an order that has no study does not change the result, and on its own it gives the empty list. |
| StudyService.GetRadiologyStudy | api/src/test/java/org/openmrs/module/radiology/study/RadiologyStudyServiceComponentTest.java:218-252 | A null id is IllegalArgument("studyId cannot be null"). Otherwise the match, or none exactly when no study has the id. |
| StudyService.GetRadiologyStudyByUuid | api/src/test/java/org/openmrs/module/radiology/study/RadiologyStudyServiceComponentTest.java:255-287 | A null uuid is IllegalArgument("uuid cannot be null"). Otherwise absent when no study has the uuid, unique iff exactly one does, and then that study. |
| StudyService.GetRadiologyStudyByOrderId | api/src/test/java/org/openmrs/module/radiology/study/RadiologyStudyServiceComponentTest.java:290-325 | A null id is IllegalArgument("orderId cannot be null"). Otherwise absent when no study belongs to the order, unique iff exactly one does, and then that study. |
| StudyService.GetRadiologyStudyByStudyInstanceUid | api/src/test/java/org/openmrs/module/radiology/study/RadiologyStudyServiceComponentTest.java:328-362 | A null uid is IllegalArgument("studyInstanceUid cannot be null"). Otherwise absent when no study has the uid, unique iff exactly one does, and then that study. |
| StudyService.GetRadiologyStudiesByRadiologyOrders | api/src/test/java/org/openmrs/module/radiology/study/RadiologyStudyServiceComponentTest.java:365-428 | A null list is IllegalArgument("radiologyOrders cannot be null"). Otherwise exactly the listed orders' studies, in table order. |
| StudyService.SaveRadiologyStudy | api/src/test/java/org/openmrs/module/radiology/study/RadiologyStudyServiceComponentTest.java:106-167 | A null study is IllegalArgument. A new study gets an id and a study instance uid. An existing study is updated in place. The study saved is the one returned. |
| StudyService.UpdateStudyPerformedStatus | api/src/test/java/org/openmrs/module/radiology/study/RadiologyStudyServiceComponentTest.java:173-213 | A null uid or a null status is rejected, in that order, with nothing changed. Otherwise it succeeds iff exactly one study has the uid; that study gets the status, is saved, and nothing else in the store changes. No match is StudyNotFound, several matches NonUniqueResult, both with nothing changed. |
| ReportDao.GetRadiologyReport | api/src/main/java/org/openmrs/module/radiology/report/HibernateRadiologyReportDAO.java:46-49 | The report with that id, or none exactly when no report has it. |
| ReportDao.GetRadiologyReportByUuid | api/src/main/java/org/openmrs/module/radiology/report/HibernateRadiologyReportDAO.java:55-60 | uniqueResult of uuid equality: absent iff none, unique iff exactly one, and then that report. |
| ReportDao.GetRadiologyReportsByRadiologyOrderAndRadiologyReportStatus | api/src/main/java/org/openmrs/module/radiology/report/HibernateRadiologyReportDAO.java:106-115 | Exactly the reports of that order in that status, each as often as stored, in table order. Never null. |
| ReportDao.HasRadiologyOrderCompletedRadiologyReport | api/src/main/java/org/openmrs/module/radiology/report/HibernateRadiologyReportDAO.java:78-85 | True iff exactly one report of the order is COMPLETED. |
| ReportDao.HasRadiologyOrderClaimedRadiologyReport | api/src/main/java/org/openmrs/module/radiology/report/HibernateRadiologyReportDAO.java:91-98 | True iff exactly one report of the order is CLAIMED. |
| ReportDao.TwoCompletedReportsAreNotCompleted | api/src/main/java/org/openmrs/module/radiology/report/HibernateRadiologyReportDAO.java:78-85 | Two COMPLETED reports of one order make the completed check false. |
| Collections.FilterLengthOneIff | api/src/main/java/org/openmrs/module/radiology/report/HibernateRadiologyReportDAO.java:84 | A filtered list has size one iff exactly one element matches. |
| ReportDao.GetActiveRadiologyReportByRadiologyOrder | api/src/main/java/org/openmrs/module/radiology/report/HibernateRadiologyReportDAO.java:121-128 | The first report of the order, in table order, whose status is not DISCONTINUED. With none, `get(0)` fails (IndexOutOfBounds). |
| ReportDao.SortByReportDate | api/src/main/java/org/openmrs/module/radiology/report/HibernateRadiologyReportDAO.java:156 | Sorted by report date ascending, and a permutation of its input. |
| ReportDao.GetRadiologyReports | api/src/main/java/org/openmrs/module/radiology/report/HibernateRadiologyReportDAO.java:135-158 | Sorted by report date. Each report matching every given criterion appears exactly as often as stored; no other report appears. |
| ReportDao.UnconstrainedSearchReturnsAll | api/src/main/java/org/openmrs/module/radiology/report/HibernateRadiologyReportDAO.java:140-157 | With no criterion set and discontinued reports included, every report comes back. |
| ReportDao.DiscontinuedExcludedByDefault | api/src/main/java/org/openmrs/module/radiology/report/HibernateRadiologyReportDAO.java:140-142 | Without includeDiscontinued, no DISCONTINUED report comes back. |
| ReportDao.DateWindowIsInclusive | api/src/main/java/org/openmrs/module/radiology/report/HibernateRadiologyReportDAO.java:143-148 | A from/to window keeps a report iff it has a date within the window, both bounds included. |
| StudyUid.StudyInstanceUid | omod/src/main/java/org/openmrs/module/radiology/web/controller/RadiologyOrderFormController.java:215 | The uid starts with the study prefix and continues past it (with the id's decimal digits). |
| StudyUid.ParseDecimalOfDecimal | omod/src/main/java/org/openmrs/module/radiology/web/controller/RadiologyOrderFormController.java:215 | The decimal text of an id reads back as that id. |
| StudyUid.StudyInstanceUidInjective | omod/src/main/java/org/openmrs/module/radiology/web/controller/RadiologyOrderFormController.java:215-218 | Under one prefix, two studies with different ids never share a uid. |
| WorklistProtocol.RedirectAfterSave | omod/src/main/java/org/openmrs/module/radiology/web/controller/RadiologyOrderFormController.java:94-98 | After success: the order list when there is no patient id, otherwise that patient's dashboard. Never the form. |
| WorklistProtocol.SelectLegacyCommand | omod/src/main/java/org/openmrs/module/radiology/web/controller/RadiologyOrderFormController.java:210-271 | At most one command runs: the present button ranked first in save > void > unvoid > discontinue > undiscontinue. None iff no button is present. |
| WorklistProtocol.SelectCommand | omod/src/main/java/org/openmrs/module/radiology/controller/RadiologyOrderFormController.java:328-368 | The same chain without save: void > unvoid > discontinue > undiscontinue. |
| WorklistProtocol.SelectCommandIgnoresSave | omod/src/main/java/org/openmrs/module/radiology/controller/RadiologyOrderFormController.java:328-368 | The newer chain is the older one with the save button disregarded. |
| WorklistProtocol.SuccessStatusesAreInSyncForTheirOperation | omod/src/main/java/org/openmrs/module/radiology/controller/RadiologyOrderFormController.java:332-362 | Each generation's success status for a command is exactly the in-sync status of its own style for that operation. |
| WorklistProtocol.ChangeFor | omod/src/main/java/org/openmrs/module/radiology/web/controller/RadiologyOrderFormController.java:236-266 | A gated command's local change carries the void reason, or the discontinue reason and date, from the form. |
| WorklistProtocol.Applied | omod/src/main/java/org/openmrs/module/radiology/web/controller/RadiologyOrderFormController.java:236-266 | voidOrder, unvoidOrder, discontinueOrder and undiscontinueOrder on the stored order. Each keeps the order's identity and sets voided / clears it / stops the order at the given date or now / clears the stop. |
| WorklistProtocol.UndiscontinueUndoesDiscontinue | omod/src/main/java/org/openmrs/module/radiology/web/controller/RadiologyOrderFormController.java:256-266 | Undiscontinuing a discontinued order gives back the order it was. |
| WorklistProtocol.UnvoidUndoesVoid | omod/src/main/java/org/openmrs/module/radiology/web/controller/RadiologyOrderFormController.java:236-246 | Unvoiding a voided order gives back the order it was. |
| WorklistProtocol.StatusWriteKeepsOrderLookup | omod/src/main/java/org/openmrs/module/radiology/web/controller/RadiologyOrderFormController.java:233-235 | After the send writes a status, the by-order re-read finds the same study with that status. |
| WorklistProtocol.GatedSendsFirst | omod/src/main/java/org/openmrs/module/radiology/web/controller/RadiologyOrderFormController.java:231-271 | A gated command only extends the log, and the first thing it adds is the send: no local change precedes it. |
| WorklistProtocol.SendThenCommit | omod/src/main/java/org/openmrs/module/radiology/web/controller/RadiologyOrderFormController.java:231-271 | A null id, an unknown order, or a missing or ambiguous study faults with the store unchanged, with NullId, OrderNotFound, StudyNotFound or NonUniqueResult, checked in that order. Otherwise it sends for the order's one study. It applies the change, with its message, exactly when the re-read status is the success value. Any other status sets "radiology.failWorklist" and leaves the orders alone. |
| WorklistProtocol.SendAndGate | omod/src/main/java/org/openmrs/module/radiology/web/controller/RadiologyOrderFormController.java:232-240 | The send, the re-read and the status-gated commit for a stored order with one study. |
| LegacyOrderForm.SavedMessage | omod/src/main/java/org/openmrs/module/radiology/web/controller/RadiologyOrderFormController.java:225-230 | "radiology.savedFailWorklist" iff the status is SAVE_ERR or UPDATE_ERR, otherwise "Order.saved". |
| OrderForm.SavedMessagesFlagFailedSaves | omod/src/main/java/org/openmrs/module/radiology/controller/RadiologyOrderFormController.java:207-208 | Each generation flags a failed save for exactly its own style's out-of-sync save/update statuses. |
| LegacyOrderForm.Stamped | omod/src/main/java/org/openmrs/module/radiology/web/controller/RadiologyOrderFormController.java:212-218 | The study as the save branch leaves it: tied to its order, with uid = prefix + id, other fields kept. |
| LegacyOrderForm.SaveStampedStudy | omod/src/main/java/org/openmrs/module/radiology/web/controller/RadiologyOrderFormController.java:212-219 | The study is saved pointing at the order, then saved again with its uid: one row, two StudySaved effects. A study id with no row faults with nothing saved. |
| LegacyOrderForm.CommitOrderAndStudy | omod/src/main/java/org/openmrs/module/radiology/web/controller/RadiologyOrderFormController.java:211-219 | The local commit: order upserted, then the stamped study. Succeeds iff both objects are new or name stored rows. A fault never sends anything. |
| LegacyOrderForm.CommitSendsNothing | omod/src/main/java/org/openmrs/module/radiology/web/controller/RadiologyOrderFormController.java:211-219 | The local commit adds no worklist send to the log. |
| LegacyOrderForm.SendSaveOrder | omod/src/main/java/org/openmrs/module/radiology/web/controller/RadiologyOrderFormController.java:220-230 | One Save_Order for the order's study, then the re-read. Only that study's status changes. The message follows SavedMessage. |
| LegacyOrderForm.SaveOrderBranch | omod/src/main/java/org/openmrs/module/radiology/web/controller/RadiologyOrderFormController.java:210-230 | The commit happens before the send. A worklist answer never undoes the commit; only an ambiguous re-read faults, and it leaves the commit in place with nothing sent. A stale order id faults with nothing changed. A stale study id faults with the order's save left in place and nothing else saved or sent. |
| LegacyOrderForm.SendCompletesSave | omod/src/main/java/org/openmrs/module/radiology/web/controller/RadiologyOrderFormController.java:211-230 | The local commit followed by one Save_Order send, with its answer written into the saved study, is the whole save branch. |
| LegacyOrderForm.SaveCommitsFirst | omod/src/main/java/org/openmrs/module/radiology/web/controller/RadiologyOrderFormController.java:211-222 | In the save branch every local save precedes the one send, which comes last. |
| LegacyOrderForm.ExecuteCommand | omod/src/main/java/org/openmrs/module/radiology/web/controller/RadiologyOrderFormController.java:203-280 | Unauthenticated: false, nothing changed. Otherwise the selected command runs. A fault becomes the session error and false; the error is that fault: StaleObject or NonUniqueResult for the save button, the gate's fault for the other buttons. A worklist refusal still gives true, with "radiology.failWorklist". For the save button, the store after a fault is stated: unchanged for a stale order, the order alone saved for a stale study, the local commit kept for an ambiguous re-read. |
| LegacyOrderForm.Post | omod/src/main/java/org/openmrs/module/radiology/web/controller/RadiologyOrderFormController.java:82-107 | A failed Study.setup shows the form with "radiology.studyPerformed" and runs nothing. Otherwise the command runs whatever the validator found, then redirects on true or shows the form. |
| OrderForm.SavedMessage | omod/src/main/java/org/openmrs/module/radiology/controller/RadiologyOrderFormController.java:206-212 | "radiology.savedFailWorklist" iff the status is OUT_SYNC_SAVE_FAILED or OUT_SYNC_UPDATE_FAILED, otherwise "Order.saved". |
| OrderForm.WithOrderer | omod/src/main/java/org/openmrs/module/radiology/controller/RadiologyOrderFormController.java:180-182 | An order without an orderer gets the authenticated user; one with an orderer is unchanged. |
| OrderForm.SaveOrderAndStudy | omod/src/main/java/org/openmrs/module/radiology/controller/RadiologyOrderFormController.java:200-202 | The order is saved, then the study pointing at the stored order. A stale order faults before anything is saved; a stale study faults with the order saved. |
| OrderForm.SendSaved | omod/src/main/java/org/openmrs/module/radiology/controller/RadiologyOrderFormController.java:204-212 | Save_Order for the saved study, re-read by id. Only its status changes. The message follows SavedMessage. |
| OrderForm.SaveAndSend | omod/src/main/java/org/openmrs/module/radiology/controller/RadiologyOrderFormController.java:199-212 | The local saves, then the send. Succeeds iff both objects are new or name stored rows. |
| OrderForm.SaveCommitsFirst | omod/src/main/java/org/openmrs/module/radiology/controller/RadiologyOrderFormController.java:199-204 | Both local saves precede the one send. |
| OrderForm.PostSaveOrder | omod/src/main/java/org/openmrs/module/radiology/controller/RadiologyOrderFormController.java:172-228 | Nothing happens unless authenticated. A user with the Scheduler role submitting a study that has no scheduler and is not scheduleable (line 186) gets "radiology.studyPerformed" with nothing saved. Validator errors show the form with nothing saved. A redirect means the order (with its orderer defaulted) and study were saved and then sent. The form comes back exactly for a stale order or study, with the exception's message. A stale order leaves the store unchanged. A stale study leaves the order's save in place (orderer defaulted), logged as OrderSaved, and no study saved. |
| OrderForm.ExecuteCommand | omod/src/main/java/org/openmrs/module/radiology/controller/RadiologyOrderFormController.java:320-377 | Unauthenticated, or a fault: false. A fault leaves the store unchanged and becomes the session error: NullId, OrderNotFound, StudyNotFound or NonUniqueResult, as the gate found it. Otherwise the gate runs with the IN_SYNC_*_SUCCESS statuses and returns true even when the worklist refused. |
| OrderForm.Post | omod/src/main/java/org/openmrs/module/radiology/controller/RadiologyOrderFormController.java:152-170 | Runs executeCommand, then redirects on true or shows the form. |
| Portlets.DateFilterResult | omod/src/main/java/org/openmrs/module/radiology/web/controller/PortletsController.java:120-161 | Null exactly for a crossed window (both dates given, start after final). Otherwise a filtered list no longer than the input. |
| Portlets.NoBoundsReturnsAll | omod/src/main/java/org/openmrs/module/radiology/web/controller/PortletsController.java:135-136 | Without bounds every pre-matched order comes back, unchanged. |
| Portlets.DateFilterMembership | omod/src/main/java/org/openmrs/module/radiology/web/controller/PortletsController.java:137-156 | With a bound, an order is kept iff it has a start date within every given bound, bounds inclusive. |
| Portlets.DateFilterIsSubsequence | omod/src/main/java/org/openmrs/module/radiology/web/controller/PortletsController.java:132-161 | The result preserves the pre-matched orders' relative order. |
| Portlets.WindowIsBothOneSidedWindows | omod/src/main/java/org/openmrs/module/radiology/web/controller/PortletsController.java:137-156 | The two-sided window is the start-only window followed by the final-only one. |
| Portlets.MatchOrders | omod/src/main/java/org/openmrs/module/radiology/web/controller/PortletsController.java:137-156 | The appending loops build exactly the filtered list. |
| Portlets.Present | omod/src/main/java/org/openmrs/module/radiology/web/controller/PortletsController.java:71-72 | The non-null studies, and only they. |
| Portlets.OrderIdsOf | omod/src/main/java/org/openmrs/module/radiology/web/controller/PortletsController.java:63 | The ids of the matched orders, and only those. |
| Portlets.ColumnsHaveOneEntryPerStudy | omod/src/main/java/org/openmrs/module/radiology/web/controller/PortletsController.java:64-81 | The seven lists all have one entry per non-null study. |
| Portlets.ColumnsAreParallel | omod/src/main/java/org/openmrs/module/radiology/web/controller/PortletsController.java:71-80 | Entry k of each list describes study k. |
| Portlets.BuildColumns | omod/src/main/java/org/openmrs/module/radiology/web/controller/PortletsController.java:64-81 | The loop builds the parallel columns of the non-null studies. A study without a priority (line 74) or a modality (line 78) is a null dereference. |
| Portlets.PortletsController.DateFilter | omod/src/main/java/org/openmrs/module/radiology/web/controller/PortletsController.java:104-162 | The trace records "s.af(fd) true/false" when both dates are given. A crossed window answers null with "crossDate". Otherwise the filtered orders. |
| Portlets.OrdersTableAsWritten | omod/src/main/java/org/openmrs/module/radiology/web/controller/PortletsController.java:52-102 | As written, a crossed window fails the request: the null order list is handed on to getStudiesByOrders (line 63) and, if that returns, to mav.addObject (line 87), which rejects a null object. |
| Portlets.CrossDateIsNeverShown | omod/src/main/java/org/openmrs/module/radiology/web/controller/PortletsController.java:120-126 | A start one day after the final date fails the request: the "crossDate" error is never shown. |
| Portlets.PortletsController.OrdersTable | omod/src/main/java/org/openmrs/module/radiology/web/controller/PortletsController.java:52-102 | The trace is reset per request. A crossed window gives the "crossDate" error with an empty table. Any other window gives the table as written. |

## Left out

- Calls into OpenMRS code that is not part of this model are modelled by their evident effect on the tables: OrderService.saveOrder / getOrder / voidOrder / unvoidOrder / discontinueOrder / undiscontinueOrder, EncounterService.saveEncounter, and the radiology service's saveStudy / getStudy / getStudyByOrderId / getStudiesByOrders. getStudiesByOrders is modelled by StudyDao.GetRadiologyStudiesByRadiologyOrders, which returns stored studies only, so the portlet's `study != null` test never sees a null there (Portlets.BuildColumns still skips one).
- The radiology order DAO is not part of this model. The order getters are modelled as lookups over the order table.
- The study service implementation is not part of this model. Its null checks and messages come from its component test.
- StudyService.SaveRadiologyStudy: the format of a new study's instance uid is not modelled; the generator is a parameter.
- StudyService.UpdateStudyPerformedStatus: a uid that no study has is modelled as a fault (StudyNotFound). The code for that case is not part of this model.
- WorklistProtocol.Applied: a discontinuation without a date is taken to stop the order now, the evident behaviour of OrderService.discontinueOrder.
- Study.setup, OrderValidator and StudyValidator are inputs (their verdicts), and so is the user's Scheduler role. The modality worklist send and its DICOM exchange are not modelled; the status it answers is arbitrary.
- `populate`, the `@ModelAttribute` option maps, the GET handlers, `System.out.println`, `ex.printStackTrace` and `log.debug` are left out. Only the view, the session's message/error attributes and the tables are modelled.
- Date parsing (`Context.getDateFormat().parse`) is not modelled. Dates are integers, and an unparseable date string is None, as the ParseException handler makes it.
- Portlets.DateFilterResult: a missing startDate or finalDate request parameter is also modelled as None. In the code `parse(null)` throws a NullPointerException, which the ParseException handler does not catch, so such a request fails instead.
- Portlets.BuildColumns: a study's worklist status is taken as never null, so the null dereference of `study.getMwlStatus().name()` (PortletsController.java line 79) is not modelled. Study's own code is not part of this model, and every worklist operation reads and writes that status as a value. A null priority or modality is modelled and faults.
- Entities.IsDiscontinuedRightNow, Entities.IsInProgress, Entities.IsCompleted: the code of Order.isDiscontinuedRightNow, RadiologyOrder.isInProgress and RadiologyOrder.isCompleted is not part of this model. An order counts as discontinued right now when it has a stop date no later than now (inclusive); voided orders and orders not yet started get no special treatment. An order counts as in progress or completed when its study reports that performed status; an order without a study is neither, where the code might instead dereference null.
- Entities.IsScheduleable: the code of Study.isScheduleable is not part of this model. It is taken as "no performed status reported yet".
- The pre-matched orders of the portlet (`os.getOrders` over the patients matching the query) are a parameter. The status column generator and the scheduler / performing / reading texts are parameters (`Portlets.StudyText`).
- ReportDao.GetRadiologyReports: the database's placement of reports without a report date, and the order of equal dates, are not known. The model puts dateless reports first and keeps equal dates in table order. The contract states only sortedness and multiplicity.
- Query results come back in table order; Hibernate gives no order without `addOrder`.
- Transactions: placing and discontinuing roll back on a fault. The controllers' steps are not transactional: a fault after a save leaves that save in place. Concurrency is not modelled.
- Report claim, complete and revise transitions are not part of this model.
- Integer widths: ids and dates are unbounded integers.

## Findings

| source | as written | input that shows it | evidently intended | confidence | as-written member | corrected member |
|---|---|---|---|---|---|---|
| omod/src/main/java/org/openmrs/module/radiology/web/controller/PortletsController.java:61-94 | dateFilter returns null for a crossed window (lines 120-126). ordersTable passes that null to getStudiesByOrders (63), mav.addObject (87) and matchedOrders.size() (94), so the request fails. | startDate one day after finalDate, e.g. start = 86400000, final = 0 | the form shows the "crossDate" error with an empty table | not executed | Portlets.OrdersTableAsWritten, Portlets.CrossDateIsNeverShown | Portlets.PortletsController.OrdersTable |
