# EMROAI core, modelled in Dafny

EMROAI is a clinic application. Patients book doctors. Doctors complete appointments with a
diagnosis, prescriptions and attachments. Doctors can send a fundus image to a segmentation script
and annotate the result. This project models the sequential logic of that application. It leaves out the
HTTP, database and React plumbing around that logic.

| module (file) | models |
|---|---|
| `JsValues` (js_values.dfy) | JavaScript values: truthiness, chains of the `or` operator, object fields in insertion order, `String()`, `Number()` of everything but a date, `trim` over the ECMAScript white-space set, `toLowerCase` of the ASCII letters, `split`, `includes` |
| `Auth` (auth.dfy) | `requireAuth` with its role inference, and `requireRole`, in backend/middlewares/auth.js |
| `Appointments` (appointments.dfy) | the appointment record shared by the controllers and pages |
| `MedicalRecords` (records.dfy) | attachment and prescription normalisation, the attachment merge, `finishAppointment`, the details access rule and attachment deletion in backend/controllers/medicalRecordController.js |
| `RecordRoutes` (record_routes.dfy) | the upload, doctor-notes and AI-analysis handlers in backend/routes/medicalRecordRoutes.js |
| `DoctorApi` (doctor_api.dfy) | availability, the patient list, complete/cancel with slot release and the dashboard in backend/controllers/doctorController.js |
| `AppointmentList` (appointment_list.dfy) | date reading, the newest-first sort, the search and the pagination in admin/src/pages/Doctor/DoctorAppointments.jsx |
| `PatientDetails` (patient_details.dfy) | attachment totals, the slot search, pagination and the status label in admin/src/pages/Doctor/DoctorPatientDetails.jsx |
| `Booking` (booking.dfy) | slot generation and booking guards in frontend/src/pages/Appointment.jsx |
| `MyAppointments` (my_appointments.dfy) | the date format, the action buttons and the PDF download in frontend/src/pages/MyAppointments.jsx |
| `AttachmentAnalysis` (attachment_analysis.dfy) | report parsing, the report summary and overlay URLs in admin/src/pages/Doctor/AttachmentAnalysis.jsx |
| `AppointmentDetails` (appointment_details.dfy) | auth headers, the delete fallback, section saves, prescription editing and `renderValue` in admin/src/pages/Doctor/DoctorAppointmentDetails.jsx |
| `CompleteModal` (complete_modal.dfy) | the token, list editing, validation and payload of admin/src/components/DoctorCompleteModal.jsx |
| `Viewport` (viewport.dfy) | the offset clamp, wheel zoom, reset and fit of the annotator's view |
| `Annotations` (annotator.dfy) | the annotation list with undo/redo as pure functions, and the `Annotator` class holding the modal's state |
| `SegmentLabels` (segment_labels.dfy) | `fix_mask_axes`, `argmax_to_label_mask`, `colorize_label_mask` and `analyze_labels` of the segmentation script |
| `SegmentRegions` (segment_regions.dfy) | `connected_components_bboxes`: the 4-connected flood fill with a visited grid and a queue |

There are two copies of the segmentation script: AI/fundus-lesions-toolkit/run_segment.py and
AI/run_segment.py. They are identical in the five functions modelled. The table cites the first copy. The same functions sit
in AI/run_segment.py at lines 53-63 (`argmax_to_label_mask`), 65-72 (`colorize_label_mask`),
81-104 (`connected_components_bboxes`), 106-118 (`analyze_labels`) and 120-139 (`fix_mask_axes`).

Some inputs come from outside the program. Each appears in the model as a parameter:
- the clock (the current date and minute);
- date parsing (`parse: string -> Option<int>`, with `None` for an invalid date);
- number and locale formatting (`Formatters`, and a minute-of-day formatter for `toLocaleTimeString`);
- `localStorage` (a `string -> Option<string>` map);
- the axios responses;
- the database lookups `doctorModel.findById` and `userModel.findById` behind the role inference.

Objects are association lists in key order. The model has no object identity. Numbers are exact
reals, so a NaN is never stored, except in the annotator's view offsets, which also carry NaN and
the two infinities. Where the source would produce NaN, the model returns `None`.

The annotator modal changes its state step by step. Its state is the class `Annotations.Annotator`,
and each method has `modifies this`. Each method's `ensures` ties the new state to the pure history
functions (`Push`, `UndoH`, `RedoH`, `Without`, `ReplaceById`). The inverse laws are proved as lemmas
about those functions. `connected_components_bboxes` and `analyze_labels` loop over a grid, so they
are methods with loop invariants. Their results are proved against the region predicates of
`SegmentRegions` and against pixel counts.

## Model

| member | source | states |
|---|---|---|
| Auth.TokenOf | backend/middlewares/auth.js:17 | the token is the second space-separated part of the header, empty when there is none |
| Auth.IdOf | backend/middlewares/auth.js:23-29 | the user id is the first truthy of `id`, `_id`, `userId`, `sub` as a string, else `""` |
| Auth.RoleOf | backend/middlewares/auth.js:30-34 | the role is the first truthy of `role`, `userRole`, `type`, lower-cased; an empty role becomes `undefined` |
| Auth.LowerOrUndef | backend/middlewares/auth.js:30-34 | a stored role is `undefined` or a non-empty lower-case string |
| Auth.InferRole | backend/middlewares/auth.js:36-52 | a role-less token gets `doctor` iff its id names a doctor, `patient` iff it names no doctor but a user, and stays `undefined` when neither is found or a lookup fails |
| Auth.SessionRole | backend/middlewares/auth.js:30-52 | the stored role is the token's when it has one and the inferred one otherwise; it is `undefined` or a non-empty lower-case string |
| Auth.RequireAuth | backend/middlewares/auth.js:10-65 | a request that already has a user passes unchanged; a missing header, a missing token part or a token that does not verify gives 401; otherwise the user is `{id, role}` from the payload, the role inferred from the database when the token has none |
| Auth.RequireRole | backend/middlewares/auth.js:71-78 | no user gives 401; access is granted iff the lower-cased role equals the wanted role or `admin`, and the user passes unchanged; otherwise 403 |
| Auth.AuthThenRole | backend/middlewares/auth.js:10-78 | after a successful `requireAuth`, `requireRole` admits exactly the users whose role (the token's, else the inferred one) equals the wanted role or `admin`; a user without any role is admitted only by `requireRole("")` |
| Auth.StoredRole | backend/middlewares/auth.js:75 | `requireRole` reads back, lower-cased, exactly the role `requireAuth` stored, and the empty string when none was stored |
| Auth.RolelessDoctor | backend/middlewares/auth.js:36-44 | a role-less token whose id names a doctor passes `requireRole("doctor")` and not `requireRole("patient")` |
| MedicalRecords.MetaFields | backend/controllers/medicalRecordController.js:98-125 | the meta fields are exactly the own properties whose keys are not in the reserved list, in key order |
| MedicalRecords.CollectMeta | backend/controllers/medicalRecordController.js:98-125 | the `meta` loop copies exactly the non-reserved own properties of the attachment (loop invariant against MetaFields) |
| MedicalRecords.NormalizeAttachment | backend/controllers/medicalRecordController.js:69-137 | a falsy entry becomes null, a string a url-only record uploaded by the uploader; an object gets url `url > path > file > null`, filename, type, `uploadedBy > uploaderId`, `fileId > _id > id > public_id > file_id`, and `meta` exactly when some non-reserved key exists |
| MedicalRecords.NormalizeList | backend/controllers/medicalRecordController.js:68-138 | every kept attachment is an object with a truthy url, and the kept entries are exactly the normalised inputs that have one; input order and repeats are kept (NormalizeListAppend, NormalizeListAt) |
| MedicalRecords.NormalizeListAppend | backend/controllers/medicalRecordController.js:68-138 | normalising two lists one after the other gives the two normalised lists one after the other, so input order and repeated entries are kept |
| MedicalRecords.NormalizeListAt | backend/controllers/medicalRecordController.js:68-138 | an input at index i that is kept lands at the position right after the outputs of the inputs before it |
| MedicalRecords.NormalizeAttachments | backend/controllers/medicalRecordController.js:58-141 | every output attachment is an object with a truthy url |
| MedicalRecords.AttachmentShapes | backend/controllers/medicalRecordController.js:59-66 | an array is normalised element by element, a lone object as a one-element list, anything else that is not a non-blank string gives `[]` |
| MedicalRecords.StringAttachmentShape | backend/controllers/medicalRecordController.js:63-81 | a non-blank string gives exactly one attachment whose url is that string |
| MedicalRecords.NormalizePrescription | backend/controllers/medicalRecordController.js:155-170 | a falsy entry becomes null; a string becomes `{name, createdAt}`; an object gets its name or `""` and keeps each optional field only when truthy |
| MedicalRecords.NormalizePrescriptionList | backend/controllers/medicalRecordController.js:154-171 | the kept prescriptions are exactly the normalised truthy inputs, all objects; input order and repeats are kept (PrescriptionListAppend, PrescriptionListSingle, PrescriptionListAt) |
| MedicalRecords.PrescriptionListAppend | backend/controllers/medicalRecordController.js:154-171 | normalising two prescription lists one after the other gives the two normalised lists one after the other |
| MedicalRecords.PrescriptionListSingle | backend/controllers/medicalRecordController.js:154-171 | one entry gives its normalised form when it is truthy and nothing otherwise |
| MedicalRecords.PrescriptionListAt | backend/controllers/medicalRecordController.js:154-171 | a truthy input at index i lands at the position right after the outputs of the inputs before it |
| MedicalRecords.NormalizePrescriptions | backend/controllers/medicalRecordController.js:146-172 | every output prescription is an object; a value that is neither an array nor an object gives `[]` |
| MedicalRecords.MergeAttachments | backend/controllers/medicalRecordController.js:241-250 | the dedupe loop computes the merge of the existing and the new attachments |
| MedicalRecords.DupSymmetric | backend/controllers/medicalRecordController.js:243-248 | two attachments duplicate each other by fileId or by url whichever of them is the new one |
| MedicalRecords.MergeShape | backend/controllers/medicalRecordController.js:241-250 | the existing attachments stay an in-order prefix; each appended entry is one of the new ones and no earlier entry shares its fileId or url |
| MedicalRecords.MergeCovers | backend/controllers/medicalRecordController.js:243-250 | every new attachment is in the merged list or is duplicated by one of its entries |
| MedicalRecords.MergeNothingNew | backend/controllers/medicalRecordController.js:243-250 | new attachments that are all duplicates leave the list unchanged |
| MedicalRecords.MergeIdempotent | backend/controllers/medicalRecordController.js:237-250 | finalising again with the same attachments adds nothing |
| MedicalRecords.Diagnosis | backend/controllers/medicalRecordController.js:208-224 | the diagnosis is always `{text, codes}` with an array of codes; a non-object becomes its string or `""`, an object keeps its defined text and its array of codes |
| MedicalRecords.Vitals | backend/controllers/medicalRecordController.js:230-231 | an object is kept; anything else becomes `{}` |
| MedicalRecords.FinalClinical | backend/controllers/medicalRecordController.js:252-263 | the notes are the new string notes, else the old truthy notes, else `""`; the old attachments stay a prefix; `finalizedBy` is the caller |
| MedicalRecords.FinishAppointment | backend/controllers/medicalRecordController.js:175-268 | an invalid id gives 400, a missing appointment 404, a caller who is neither its doctor nor an admin 403; otherwise the appointment is completed with the final clinical record |
| MedicalRecords.DetailsAccess | backend/controllers/medicalRecordController.js:301-326 | an appointment is returned unchanged iff the caller is an admin, its patient or its doctor; otherwise 403 |
| MedicalRecords.PatientSeesOnlyOwn | backend/controllers/medicalRecordController.js:303-324 | a patient never reads an appointment booked by somebody else |
| MedicalRecords.AttachmentIndex | backend/controllers/medicalRecordController.js:587-600 | the index is the first id match (fileId, _id or id) when the parameter is usable and not `"undefined"`, otherwise the first url match, and -1 iff neither exists |
| MedicalRecords.DeleteAttachment | backend/controllers/medicalRecordController.js:560-613 | 400, 404 and 403 as for finishing; a miss gives 404; a hit removes exactly that index, keeps the rest in order and changes nothing else |
| MedicalRecords.DeleteRemovesOne | backend/controllers/medicalRecordController.js:608 | a removal deletes exactly one occurrence of the chosen attachment (multiset) |
| MedicalRecords.Splice | backend/controllers/medicalRecordController.js:608 | `splice(i, 1)` keeps the entries before i, shifts those after it down by one, and removes exactly one occurrence of entry i |
| RecordRoutes.BaseUrl | backend/routes/medicalRecordRoutes.js:53-56 | a non-blank `BACKEND_URL` is used with one trailing `/` stripped; otherwise the base is `protocol://host` |
| RecordRoutes.UploadFields | backend/routes/medicalRecordRoutes.js:60-69 | the record holds the url, filename, type, uploader and file id given, empty doctor notes and an empty analysis |
| RecordRoutes.NewAttachment | backend/routes/medicalRecordRoutes.js:60-69 | the new attachment carries the public url, the file's name and type, the uploader, a truthy `fileId` or none, `doctorNotes: ""` and `aiAnalysis: {}` |
| RecordRoutes.Upload | backend/routes/medicalRecordRoutes.js:36-99 | no file gives 400; otherwise the attachment's url is the base followed by the stream url and it is appended to the appointment's attachments when the appointment exists |
| RecordRoutes.PatchIndex | backend/routes/medicalRecordRoutes.js:133-191 | the index is the first attachment whose `fileId` or `_id` string-equals the parameter, and -1 iff there is none |
| RecordRoutes.SetAttachmentField | backend/routes/medicalRecordRoutes.js:145-203 | only the one field of the attachment at the index changes; every other attachment, every other key and the rest of the appointment stay the same |
| RecordRoutes.PatchField | backend/routes/medicalRecordRoutes.js:127-150 | a missing appointment or attachment gives 404; otherwise the field is set at the found index |
| RecordRoutes.PatchDoctorNotes | backend/routes/medicalRecordRoutes.js:113-158 | a missing body fails with 500, non-string notes give 400, otherwise the notes are stored at the found attachment |
| RecordRoutes.PatchAiAnalysis | backend/routes/medicalRecordRoutes.js:166-211 | a missing body fails with 500, a falsy `aiAnalysis` gives 400, otherwise it is stored at the found attachment |
| RecordRoutes.DoctorNotesOnlyThatSlot | backend/routes/medicalRecordRoutes.js:133-150 | a successful notes update changes only `doctorNotes` of the first matching attachment, to the given string |
| RecordRoutes.UndefinedIdMatchesFirst | backend/routes/medicalRecordRoutes.js:134-138 | the parameter `"undefined"` matches the first attachment without an `_id`, because `String(undefined)` is `"undefined"` |
| DoctorApi.ChangeAvailability | backend/controllers/doctorController.js:10-21 | an existing doctor's `available` becomes its negation; a missing doctor makes the handler fail |
| DoctorApi.ToggleTwice | backend/controllers/doctorController.js:14-16 | toggling availability twice restores the doctor |
| DoctorApi.DocIdOf | backend/controllers/doctorController.js:94 | the doctor id is `body.docId` when truthy, else the caller's id |
| DoctorApi.CompletedFor | backend/controllers/doctorController.js:98-101 | the query keeps exactly the completed appointments of that doctor |
| DoctorApi.Uid | backend/controllers/doctorController.js:106-107 | an appointment contributes a patient iff it has a non-empty user id |
| DoctorApi.EntryOf | backend/controllers/doctorController.js:109-113 | a patient entry carries the user id, the user data or `{}`, and the date, else the slot date, else `null` |
| DoctorApi.DoctorPatients | backend/controllers/doctorController.js:92-119 | no doctor id gives "Missing docId"; otherwise the Map loop yields the patient list of that doctor's completed appointments, each patient's entry from their first appointment in the order the query returns them |
| DoctorApi.PatientsStep | backend/controllers/doctorController.js:105-115 | visiting one more appointment appends its patient's entry, unless the appointment has no user id or the patient is already listed |
| DoctorApi.FirstVisit | backend/controllers/doctorController.js:105-108 | the first appointment of a patient, -1 iff the patient has none |
| DoctorApi.PatientsFromFirstVisit | backend/controllers/doctorController.js:108-114 | each patient entry is built from that patient's first appointment in input order |
| DoctorApi.PatientsCover | backend/controllers/doctorController.js:105-115 | every appointment with a user id has its patient listed |
| DoctorApi.PatientsInFirstVisitOrder | backend/controllers/doctorController.js:104-117 | the entries are in order of first appearance and no patient appears twice |
| DoctorApi.NewPatientLast | backend/controllers/doctorController.js:105-115 | a patient first seen in the last appointment is listed after all earlier patients, so the first-visit order is kept |
| DoctorApi.AppointmentComplete | backend/controllers/doctorController.js:129-157 | a missing doctor or appointment id fails with its message; it succeeds iff the appointment exists and belongs to the doctor, and then only `isCompleted` is set |
| DoctorApi.RemoveTime | backend/controllers/doctorController.js:191-193 | the released list keeps exactly the times that are not `===` the slot time |
| DoctorApi.ReleaseSlot | backend/controllers/doctorController.js:182-198 | releasing a slot never changes the doctor's availability |
| DoctorApi.ReleaseSlotSpec | backend/controllers/doctorController.js:186-196 | every occurrence of the time is removed from that date's list and every other date is untouched |
| DoctorApi.AppointmentCancel | backend/controllers/doctorController.js:162-218 | the same checks as completing; on success the appointment is cancelled and the doctor returned is the found doctor with that appointment's slot released |
| DoctorApi.CancelReleasesSlot | backend/controllers/doctorController.js:182-198 | after a successful cancel of an appointment with a doctor, a date and a time, the time is gone from that date's booked list and every other date is unchanged |
| DoctorApi.ForDoctor | backend/controllers/doctorController.js:228 | the dashboard query keeps exactly the doctor's appointments |
| DoctorApi.Earned | backend/controllers/doctorController.js:232-233 | an appointment neither completed nor paid earns 0, and a non-zero earning is the appointment's amount |
| DoctorApi.EarningsAppend | backend/controllers/doctorController.js:230-235 | earnings add up over a split of the appointment list |
| DoctorApi.EarningsCountOnlyPaidOrCompleted | backend/controllers/doctorController.js:232-233 | appointments that are neither completed nor paid, or have no amount, earn nothing |
| DoctorApi.DistinctPatientsNoRepeat | backend/controllers/doctorController.js:237-242 | the dashboard patient list has no repeated user id |
| DoctorApi.DistinctPatientsMembers | backend/controllers/doctorController.js:237-242 | a user id is in the list iff some appointment has it |
| DoctorApi.DistinctPatientsCount | backend/controllers/doctorController.js:237-247 | the patient count is the number of distinct user ids |
| DoctorApi.Latest | backend/controllers/doctorController.js:248 | the latest appointments are the last five of the query's order, or all when fewer, in reverse query order |
| DoctorApi.DoctorDashboard | backend/controllers/doctorController.js:223-251 | no doctor id gives "Missing docId"; otherwise the loops compute the earnings, the appointment count, the distinct patient count and the latest five |
| AppointmentList.DateParts | admin/src/pages/Doctor/DoctorAppointments.jsx:25-27 | the parts are the slot date split at `-`, `/` and `.`, each trimmed |
| AppointmentList.PartsHaveNoSeparator | admin/src/pages/Doctor/DoctorAppointments.jsx:25-27 | no part contains a separator |
| AppointmentList.IsoOfPartsSplits | admin/src/pages/Doctor/DoctorAppointments.jsx:28-34 | a three-part date with a four-character first part stays year first; otherwise its parts are reversed to year first |
| AppointmentList.IsoDateParts | admin/src/pages/Doctor/DoctorAppointments.jsx:28-34 | a three-part slot date is rewritten to a date whose parts are the original ones, year first |
| AppointmentList.TryParse | admin/src/pages/Doctor/DoctorAppointments.jsx:11-18 | a falsy value gives no date; otherwise the value as parsed, else the string with every `-` replaced by `/` as parsed |
| AppointmentList.ScheduledSources | admin/src/pages/Doctor/DoctorAppointments.jsx:9-46 | the scheduled time is the slot date with its time, else the year-first slot date with its time, else `date`, else minus infinity |
| AppointmentList.PrecedesTotal | admin/src/pages/Doctor/DoctorAppointments.jsx:86-91 | the comparator orders any two appointments one way or the other |
| AppointmentList.PrecedesTransitive | admin/src/pages/Doctor/DoctorAppointments.jsx:86-91 | the comparator is transitive |
| AppointmentList.SortBy | admin/src/pages/Doctor/DoctorAppointments.jsx:86-91 | the sort yields a permutation of its input, ordered by the key |
| AppointmentList.SortNewestFirst | admin/src/pages/Doctor/DoctorAppointments.jsx:78-94 | the sorted list is a permutation of the appointments |
| AppointmentList.SortedIsNewestFirst | admin/src/pages/Doctor/DoctorAppointments.jsx:86-91 | the list is in descending time order, ties broken by the date (or, without one, the creation time) descending |
| AppointmentList.UndatedLast | admin/src/pages/Doctor/DoctorAppointments.jsx:82 | an appointment without a parseable time comes after every appointment with one |
| AppointmentList.Search | admin/src/pages/Doctor/DoctorAppointments.jsx:97-129 | a blank query keeps the sorted list; otherwise the result is an order-preserving subsequence of exactly the rows in which name, formatted date, time, id or amount contains the lower-cased query |
| AppointmentList.RowMatches | admin/src/pages/Doctor/DoctorAppointments.jsx:100-128 | an empty query matches every row, and a row whose lower-cased id contains the query matches |
| AppointmentList.BlankQueryKeepsAll | admin/src/pages/Doctor/DoctorAppointments.jsx:98-99 | a whitespace-only query keeps every row |
| AppointmentList.TotalPages | admin/src/pages/Doctor/DoctorAppointments.jsx:169 | `max(1, ceil(n/10))`: at least one page, enough pages for n rows and no empty last page |
| AppointmentList.PageOf | admin/src/pages/Doctor/DoctorAppointments.jsx:170-176 | page p is the slice from `(p-1)*10` to `min(p*10, n)`, at most ten rows, empty past the end |
| AppointmentList.PagesCoverList | admin/src/pages/Doctor/DoctorAppointments.jsx:169-176 | the pages up to the last one together are the whole list |
| AppointmentList.ValidPageNotEmpty | admin/src/pages/Doctor/DoctorAppointments.jsx:169-176 | every page from 1 to the last of a non-empty list shows at least one row |
| AppointmentList.ClampPage | admin/src/pages/Doctor/DoctorAppointments.jsx:132-138 | a page past the last is clamped to the last; a valid page stays |
| AppointmentList.PrevPage | admin/src/pages/Doctor/DoctorAppointments.jsx:314 | Prev goes back one page, never below 1 |
| AppointmentList.NextPage | admin/src/pages/Doctor/DoctorAppointments.jsx:342 | Next goes forward one page, never past the last |
| AppointmentList.PrevNextStayInRange | admin/src/pages/Doctor/DoctorAppointments.jsx:314-342 | from a valid page, Prev and Next stay within 1 and the last page |
| AppointmentList.Visible | admin/src/pages/Doctor/DoctorAppointments.jsx:168-176 | at most ten rows are visible |
| AppointmentList.VisibleFromRows | admin/src/pages/Doctor/DoctorAppointments.jsx:78-176 | every visible row is one of the appointments |
| PatientDetails.Folders | admin/src/pages/Doctor/DoctorPatientDetails.jsx:280-284 | the folder count is at most the number of appointments, and with FoldersAppend and FoldersSingle it is the number of appointments holding an attachment |
| PatientDetails.FoldersAppend | admin/src/pages/Doctor/DoctorPatientDetails.jsx:280-284 | the folder count adds up over a split of the appointment list |
| PatientDetails.FoldersSingle | admin/src/pages/Doctor/DoctorPatientDetails.jsx:280-284 | one appointment is one folder iff it has an attachment; with FoldersAppend, the count is the number of appointments with attachments |
| PatientDetails.TotalsAgree | admin/src/pages/Doctor/DoctorPatientDetails.jsx:55-284 | there are no attachments iff no appointment has one, and the folder count is at most the attachment total |
| PatientDetails.TotalAppend | admin/src/pages/Doctor/DoctorPatientDetails.jsx:55-58 | the attachment total adds up over a split of the appointment list |
| PatientDetails.SlotSearch | admin/src/pages/Doctor/DoctorPatientDetails.jsx:61-74 | an empty query keeps every appointment; otherwise exactly those whose formatted date or time contains the query, in order |
| PatientDetails.SlotMatches | admin/src/pages/Doctor/DoctorPatientDetails.jsx:66-72 | an empty query matches every appointment, and a slot time containing the query matches |
| PatientDetails.PagerIffSeveralPages | admin/src/pages/Doctor/DoctorPatientDetails.jsx:83-210 | the pager is shown iff there is more than one page |
| PatientDetails.OnePageShowsAll | admin/src/pages/Doctor/DoctorPatientDetails.jsx:89-210 | without the pager the first page shows every appointment |
| PatientDetails.Status | admin/src/pages/Doctor/DoctorPatientDetails.jsx:157-161 | Cancelled before Completed before Pending, each exactly in its case |
| Booking.TodayStart | frontend/src/pages/Appointment.jsx:43-57 | today's start is the first half-hour mark at or after 10:00 that is later than now: 10:00 before ten, the next full hour from minute 30, else the current hour's half past |
| Booking.DayStart | frontend/src/pages/Appointment.jsx:42-61 | every day starts no earlier than 10:00, and every day after today at exactly 10:00 |
| Booking.DaySlots | frontend/src/pages/Appointment.jsx:64-104 | the while loop offers exactly the free half-hour marks from the start to before 21:00, in increasing order with their formatted times; a start at or after 21:00 gives no slots |
| Booking.AvailableSlots | frontend/src/pages/Appointment.jsx:27-108 | without a doctor nothing is produced; otherwise exactly seven day lists, each the day's free slots from its start |
| Booking.BookedNotOffered | frontend/src/pages/Appointment.jsx:85-98 | a time booked under the day's `day_month_year` key is never offered that day |
| Booking.SlotsWithinHours | frontend/src/pages/Appointment.jsx:60-76 | every slot lies between 10:00 and before 21:00, and a later day whose 10:00 slot is free starts with it |
| Booking.Book | frontend/src/pages/Appointment.jsx:110-134 | no token sends the user to log in, no selected time asks for one; a request is sent iff both are present and the selected day has slots, with the time and the day's `day_month_year` key |
| Booking.DateKeyParts | frontend/src/pages/Appointment.jsx:82-127 | the date key splits at `_` into the day, the 1-based month and the year |
| MyAppointments.MonthAt | frontend/src/pages/MyAppointments.jsx:37 | `months[x]` is a month name for a whole index from 0 to 11 and `undefined` otherwise |
| MyAppointments.SlotDateFormatAsWritten | frontend/src/pages/MyAppointments.jsx:32-39 | as written, an empty or missing date shows `""` and a date with fewer than three parts is shown unchanged |
| MyAppointments.SlotDateFormat | frontend/src/pages/MyAppointments.jsx:32-39 | the corrected format: `""` for an empty date, the date itself when it has fewer than three parts, else day, month name counted from 1 and year with single spaces |
| MyAppointments.MonthOfNumeral | frontend/src/pages/MyAppointments.jsx:37 | the month part `m` names month m when read from 1, and month m+1 (or `undefined` for 12) as written |
| MyAppointments.KeyParts | frontend/src/pages/MyAppointments.jsx:34-38 | a booking date key splits into its day, its 1-based month and its year |
| MyAppointments.FormatsBookingKey | frontend/src/pages/MyAppointments.jsx:32-39 | the corrected format shows a booked date with its own day, month and year |
| MyAppointments.AsWrittenShowsNextMonth | frontend/src/pages/MyAppointments.jsx:37 | as written, a booked date is shown with the next month's name, and a December date with `undefined` |
| MyAppointments.AsWrittenDiffers | frontend/src/pages/MyAppointments.jsx:37 | as written, no booked date is shown with its own month |
| MyAppointments.ControlsOf | frontend/src/pages/MyAppointments.jsx:254-342 | Pay Online iff not cancelled, unpaid, not completed and not selected; the gateways iff the same but selected; Paid, Completed, Cancel and the cancelled badge in their cases; the PDF mode is `ticket` iff not completed |
| MyAppointments.ExactlyOneStatus | frontend/src/pages/MyAppointments.jsx:254-318 | each appointment shows exactly one status control, and Cancel exactly with the open ones |
| MyAppointments.SelectingOpensGateways | frontend/src/pages/MyAppointments.jsx:257-269 | selecting the appointment replaces Pay Online by the gateways |
| MyAppointments.BearerRoundTrip | frontend/src/pages/MyAppointments.jsx:181 | the middleware reads back the token the page sends as `Bearer <token>` |
| MyAppointments.ContentType | frontend/src/pages/MyAppointments.jsx:186 | the content type is the header's, `application/pdf` when it is missing or empty |
| MyAppointments.DownloadPdf | frontend/src/pages/MyAppointments.jsx:170-217 | no token gives "Not authenticated"; a PDF is saved iff the answer's content type contains `pdf`, as `appointment_<id>_<mode>.pdf`; a non-PDF answer and a 401 or 403 error give their messages |
| MyAppointments.MissingTypeIsSaved | frontend/src/pages/MyAppointments.jsx:186-194 | an answer without a content type is taken for a PDF and saved |
| AttachmentAnalysis.ParseReport | admin/src/pages/Doctor/AttachmentAnalysis.jsx:74-83 | a falsy report gives null, a non-string is returned as it is, a string is its parse or null when it does not parse |
| AttachmentAnalysis.TextAndObjectAgree | admin/src/pages/Doctor/AttachmentAnalysis.jsx:74-83 | a report given as JSON text and as the object it parses to are read alike |
| AttachmentAnalysis.NumberOr0 | admin/src/pages/Doctor/AttachmentAnalysis.jsx:114-115 | a falsy figure reads as 0 |
| AttachmentAnalysis.LargestRegion | admin/src/pages/Doctor/AttachmentAnalysis.jsx:117-123 | the reduction takes the first region with the largest positive pixel count, and `{}` when no count is positive |
| AttachmentAnalysis.LargestFrom | admin/src/pages/Doctor/AttachmentAnalysis.jsx:119-122 | from any running maximum, the reduction ends at the first region exceeding every earlier one, or keeps the running maximum |
| AttachmentAnalysis.SortLabels | admin/src/pages/Doctor/AttachmentAnalysis.jsx:105-107 | the label keys are reordered, not changed |
| AttachmentAnalysis.SortLabelsSorted | admin/src/pages/Doctor/AttachmentAnalysis.jsx:105-107 | the label keys are visited in ascending numeric order, and exactly the keys of the analysis are visited |
| AttachmentAnalysis.SortBySorted | admin/src/pages/Doctor/AttachmentAnalysis.jsx:105-107 | the insertion sort orders keys by their value |
| AttachmentAnalysis.Flags | admin/src/pages/Doctor/AttachmentAnalysis.jsx:127-129 | "substantial coverage" iff coverage is at least 5, "many small regions" iff at least 20 regions, and no flags iff neither |
| AttachmentAnalysis.ClassLine | admin/src/pages/Doctor/AttachmentAnalysis.jsx:125-138 | a label's line starts with `Class <k>: ` and ends with the closing parenthesis of its flags when it has some |
| AttachmentAnalysis.StrArr | admin/src/pages/Doctor/AttachmentAnalysis.jsx:130-175 | a list of strings is stored as an array of those strings in order |
| AttachmentAnalysis.Suggestions | admin/src/pages/Doctor/AttachmentAnalysis.jsx:155-171 | the coverage note is present iff some label has coverage at least 5, the lesions note iff some label has at least 20 regions, and there are none iff no label is flagged |
| AttachmentAnalysis.VisitLabels | admin/src/pages/Doctor/AttachmentAnalysis.jsx:110-140 | the `forEach` over the label keys computes the findings and lines of the label loop, and stops where a region list makes it throw |
| AttachmentAnalysis.GenerateSummary | admin/src/pages/Doctor/AttachmentAnalysis.jsx:86-180 | the summary of the report; a falsy report gives "No report content" with empty findings |
| AttachmentAnalysis.VisitLabel | admin/src/pages/Doctor/AttachmentAnalysis.jsx:110-139 | the callback for one label key skips a falsy entry, throws where the region list does, and otherwise records the class entry, its flags when there are any, and one summary line |
| AttachmentAnalysis.LabelsSnoc | admin/src/pages/Doctor/AttachmentAnalysis.jsx:110-140 | one more key runs one more callback on the result of the earlier ones, unless they threw |
| AttachmentAnalysis.ThrownStays | admin/src/pages/Doctor/AttachmentAnalysis.jsx:110-140 | once the loop has thrown, the whole summary throws |
| AttachmentAnalysis.StepKeepsOthers | admin/src/pages/Doctor/AttachmentAnalysis.jsx:130-135 | one label's step writes only that label's entry and flags |
| AttachmentAnalysis.StepRecords | admin/src/pages/Doctor/AttachmentAnalysis.jsx:127-135 | a label with a truthy entry gets its entry, and its flags exactly when it has some |
| AttachmentAnalysis.LabelsRecord | admin/src/pages/Doctor/AttachmentAnalysis.jsx:110-140 | after the loop, each visited label with a truthy entry has its entry and flags, and no other label has any |
| AttachmentAnalysis.FindingsPerLabel | admin/src/pages/Doctor/AttachmentAnalysis.jsx:86-180 | in the final findings, each label of the report with a truthy entry has its entry and flags, and no other label has any |
| AttachmentAnalysis.FinishSuggestions | admin/src/pages/Doctor/AttachmentAnalysis.jsx:173-176 | the suggestions are stored exactly when there are some |
| AttachmentAnalysis.SuggestionsStored | admin/src/pages/Doctor/AttachmentAnalysis.jsx:86-180 | the final findings carry the suggestions iff there are some |
| AttachmentAnalysis.LabelsHaveNoSuggestions | admin/src/pages/Doctor/AttachmentAnalysis.jsx:110-140 | the label loop never writes the `suggestions` key |
| AttachmentAnalysis.NormalizeUrl | admin/src/pages/Doctor/AttachmentAnalysis.jsx:244-262 | a falsy url gives null; http, https and data urls are kept; a `/` path is prefixed by the backend url without its trailing slash, else by the page origin; anything else is kept |
| AttachmentAnalysis.RootPathBecomesAbsolute | admin/src/pages/Doctor/AttachmentAnalysis.jsx:254-258 | a root path under an http or https base becomes an absolute url |
| AttachmentAnalysis.NormalizeIdempotent | admin/src/pages/Doctor/AttachmentAnalysis.jsx:244-262 | normalising a normalised url changes nothing |
| AttachmentAnalysis.OverlaySrc | admin/src/pages/Doctor/AttachmentAnalysis.jsx:238-268 | the in-memory overlay comes first, then the saved analysis' overlay, then the attachment's, each normalised |
| AppointmentDetails.AuthToken | admin/src/pages/Doctor/DoctorAppointmentDetails.jsx:38-46 | the token is the first non-empty of the context's `dToken` and the stored `dToken`, `token` and `authToken`, or `""` |
| AppointmentDetails.AuthHeaders | admin/src/pages/Doctor/DoctorAppointmentDetails.jsx:48-56 | no headers iff the token is empty; otherwise `dToken` carries the token and `Authorization` carries `Bearer <token>` |
| AppointmentDetails.HeadersCarryToken | admin/src/pages/Doctor/DoctorAppointmentDetails.jsx:48-56 | the auth middleware reads back from the `Authorization` header the token the page sent |
| AppointmentDetails.DeleteId | admin/src/pages/Doctor/DoctorAppointmentDetails.jsx:218-219 | the id sent to delete an attachment is the first truthy of its `fileId`, `_id`, `id` and `public_id`, else `undefined` |
| AppointmentDetails.Remaining | admin/src/pages/Doctor/DoctorAppointmentDetails.jsx:247-257 | the attachments kept after a delete are, in order, exactly those that do not match the deleted one |
| AppointmentDetails.DeletedIsGone | admin/src/pages/Doctor/DoctorAppointmentDetails.jsx:247-257 | an attachment with a `fileId`, an `_id` or a URL does not survive its own delete |
| AppointmentDetails.ListOr | admin/src/pages/Doctor/DoctorAppointmentDetails.jsx:255-264 | the list defaulting to `[]` is empty for a falsy value and the array itself for an array; any other value has no `filter` |
| AppointmentDetails.DropFromAppointment | admin/src/pages/Doctor/DoctorAppointmentDetails.jsx:251-259 | the deleted attachment leaves the appointment's clinical attachments and every other field stays |
| AppointmentDetails.DropFromDraft | admin/src/pages/Doctor/DoctorAppointmentDetails.jsx:260-267 | the deleted attachment leaves the draft's attachments and every other field stays |
| AppointmentDetails.DeleteKeepsDraftInStep | admin/src/pages/Doctor/DoctorAppointmentDetails.jsx:251-267 | after a delete, the appointment's clinical record equals the draft updated the same way, when the draft was that record |
| AppointmentDetails.SectionFields | admin/src/pages/Doctor/DoctorAppointmentDetails.jsx:322-336 | each section's payload holds exactly that section's fields (all four for a whole save), each one the draft's value or its default |
| AppointmentDetails.SourceFallsBack | admin/src/pages/Doctor/DoctorAppointmentDetails.jsx:338-342 | the attachments sent are the draft's when it has them, and `[]` when neither the draft nor the appointment has any |
| AppointmentDetails.WithFileId | admin/src/pages/Doctor/DoctorAppointmentDetails.jsx:343-350 | a falsy or string attachment is sent as it is; an object gets `fileId` as the first truthy of its id fields and keeps every other field |
| AppointmentDetails.WithFileIdIdempotent | admin/src/pages/Doctor/DoctorAppointmentDetails.jsx:343-350 | filling in `fileId` twice gives the same as once |
| AppointmentDetails.NormalizeAll | admin/src/pages/Doctor/DoctorAppointmentDetails.jsx:343-350 | every attachment is sent in its place with its `fileId` filled in |
| AppointmentDetails.SavePayload | admin/src/pages/Doctor/DoctorAppointmentDetails.jsx:318-350 | the payload holds the section's fields and then the attachments with their ids filled in; a source that is not an array has no `map` |
| AppointmentDetails.WithRx | admin/src/pages/Doctor/DoctorAppointmentDetails.jsx:404-421 | the draft gets the new prescription list and keeps every other field |
| AppointmentDetails.SpreadOr | admin/src/pages/Doctor/DoctorAppointmentDetails.jsx:406 | spreading the value (`[]` in its place when it is falsy) is empty for a falsy value, the array's elements for an array and a string's characters, one string each, for a string; any other truthy value is not iterable and throws |
| AppointmentDetails.Chars | admin/src/pages/Doctor/DoctorAppointmentDetails.jsx:406 | spreading a string gives as many one-character strings as it has characters, in order |
| AppointmentDetails.TextRxSpreads | admin/src/pages/Doctor/DoctorAppointmentDetails.jsx:404-421 | a draft whose prescriptions are the string `"ab"` is copied as the two rows `"a"` and `"b"` |
| AppointmentDetails.AddPrescription | admin/src/pages/Doctor/DoctorAppointmentDetails.jsx:404-409 | adding appends one empty prescription to the draft's list and keeps every other field |
| AppointmentDetails.SpliceStart | admin/src/pages/Doctor/DoctorAppointmentDetails.jsx:419 | `splice` starts at the index when it is in range, at the end past it, and counts from the end for a negative index |
| AppointmentDetails.RemovePrescription | admin/src/pages/Doctor/DoctorAppointmentDetails.jsx:416-421 | removing deletes the row at the splice position, and exactly row `index` for a non-negative index, keeping every other field |
| AppointmentDetails.AssignRow | admin/src/pages/Doctor/DoctorAppointmentDetails.jsx:413 | assigning row `index` of the copied list changes one field of that row inside the list; past the end it pads with `undefined` up to a new row holding only that field |
| AppointmentDetails.UpdatePrescription | admin/src/pages/Doctor/DoctorAppointmentDetails.jsx:410-415 | an update inside the list changes one field of that row; past the end it pads with `undefined` up to a new row holding only that field |
| AppointmentDetails.RenderValue | admin/src/pages/Doctor/DoctorAppointmentDetails.jsx:434-451 | the placeholder iff the value is null, undefined, a blank string or an empty array; other objects are serialized; anything else is shown as it is |
| AppointmentDetails.PlaceholderIffBlank | admin/src/pages/Doctor/DoctorAppointmentDetails.jsx:434-441 | a string, null or undefined shows the placeholder iff it is blank as the complete modal reads blank |
| CompleteModal.Stored | admin/src/components/DoctorCompleteModal.jsx:51-59 | `localStorage.getItem(k)` is `null` for a missing key and the stored string otherwise |
| CompleteModal.ResolveToken | admin/src/components/DoctorCompleteModal.jsx:51-59 | the token is the first truthy of the `authToken` prop and the stored `token`, `authToken` and `accessToken`, and `null` when none is |
| CompleteModal.Append | admin/src/components/DoctorCompleteModal.jsx:61-80 | adding a prescription or a diagnosis code keeps every row and appends the new one last |
| CompleteModal.RemoveAt | admin/src/components/DoctorCompleteModal.jsx:65-90 | removing prescription or code row `index` keeps the rows before it and shifts the rows after it down by one; an index outside the list changes nothing |
| CompleteModal.UpdateAt | admin/src/components/DoctorCompleteModal.jsx:69-86 | updating a field of prescription or code row `index` keeps the length and every other row, and changes only that field of that row |
| CompleteModal.UpdateTwice | admin/src/components/DoctorCompleteModal.jsx:69-73 | updating the same field of the same row twice leaves only the second value |
| CompleteModal.AddThenRemove | admin/src/components/DoctorCompleteModal.jsx:61-67 | removing the row just added gives back the list before it |
| CompleteModal.TrimmedOpt | admin/src/components/DoctorCompleteModal.jsx:177-180 | `c.code?.trim()` (and likewise for `display`) is the trimmed string for a string and `undefined` for null or undefined, and throws for every other value, `0` and `false` included |
| CompleteModal.FilledIff | admin/src/components/DoctorCompleteModal.jsx:177-184 | on a string or a missing value, the trimmed form is truthy, and then so is the value, iff the value is a string with a character that is not white space |
| CompleteModal.HasName | admin/src/components/DoctorCompleteModal.jsx:182-184 | a prescription row is sent iff its name has a character that is not white space |
| CompleteModal.KeepCode | admin/src/components/DoctorCompleteModal.jsx:177-180 | the filter's callback throws exactly on a missing row, or, once the code or the display is truthy, on a code that is neither a string nor missing, or on a blank code beside such a display; otherwise a diagnosis code is sent iff its code or its display has a character that is not white space |
| CompleteModal.HrSent | admin/src/components/DoctorCompleteModal.jsx:186 | the heart rate is sent as `null` when blank and as a number when it reads as one |
| CompleteModal.KeptCodes | admin/src/components/DoctorCompleteModal.jsx:177-180 | the filter throws iff the callback throws on some code; otherwise the sent codes are, in order, exactly the codes with a non-blank code or display |
| CompleteModal.FilterCodes | admin/src/components/DoctorCompleteModal.jsx:177-180 | `filter` over the codes throws iff its callback throws on one of them, and otherwise keeps, in order, exactly the codes the callback accepts |
| CompleteModal.KeptRows | admin/src/components/DoctorCompleteModal.jsx:182-184 | the sent prescriptions are, in order, exactly the rows with a non-blank name |
| CompleteModal.PayloadFields | admin/src/components/DoctorCompleteModal.jsx:174-188 | building the body throws exactly when the code filter does; otherwise it carries the diagnosis text, the kept codes, the kept prescriptions, the notes, blood pressure, heart rate and the uploaded attachments |
| CompleteModal.BlankNameSlipsThrough | admin/src/components/DoctorCompleteModal.jsx:141-144 | as written, a form with an empty diagnosis and one row named only with spaces passes validation although nothing of it is sent |
| CompleteModal.AcceptedSendsSomething | admin/src/components/DoctorCompleteModal.jsx:141-188 | with the corrected validation, an accepted form sends a diagnosis text or at least one prescription |
| CompleteModal.RefusedIffEmptyPayload | admin/src/components/DoctorCompleteModal.jsx:141-188 | the corrected validation refuses a form exactly when its payload would hold no diagnosis text and no prescription |
| CompleteModal.HandleSave | admin/src/components/DoctorCompleteModal.jsx:136-227 | as written: a form with a falsy diagnosis text and no prescription with a truthy name gives the validation message; otherwise a missing token, then a missing appointment id give their errors; else the save ends in the thrown TypeError exactly when some code makes the filter throw, and the body is posted with the resolved token when none does |
| CompleteModal.HandleSaveCorrected | admin/src/components/DoctorCompleteModal.jsx:136-227 | with the corrected validation: refused exactly when the payload would hold no diagnosis text and no prescription; otherwise the same token and id errors and the same throw in the code filter; a posted body is the payload and carries a diagnosis text or a prescription |
| CompleteModal.AsWrittenPostsEmptyForm | admin/src/components/DoctorCompleteModal.jsx:141-188 | as written, a form with an empty diagnosis and one prescription named only with spaces is posted with an empty text and no prescription, and the corrected handler refuses it |
| CompleteModal.SaveOfPassingForm | admin/src/components/DoctorCompleteModal.jsx:136-188 | a form the written check passes, with a token, an id and no codes, is posted with its text and its kept prescriptions; the corrected handler refuses it when the corrected check does |
| CompleteModal.ZeroCodeThrows | admin/src/components/DoctorCompleteModal.jsx:176-180 | a code `{code: 0, display: "x"}` makes the filter throw, so a form holding it is never posted by either handler |
| CompleteModal.HrOfNumeral | admin/src/components/DoctorCompleteModal.jsx:186 | a heart rate typed as a decimal numeral is sent as that number |
| Viewport.NaturalWidth | admin/src/components/ImageAnnotatorModal.jsx:218-225 | the image width is `naturalWidth`, else `width`, else 1 |
| Viewport.NaturalHeight | admin/src/components/ImageAnnotatorModal.jsx:218-225 | the image height is `naturalHeight`, else `height`, else 1 |
| Viewport.Displayed | admin/src/components/ImageAnnotatorModal.jsx:287-288 | the displayed extent `max(1, natural*zoom)` is at least 1 and at least the scaled size |
| Viewport.ClampAxis | admin/src/components/ImageAnnotatorModal.jsx:290-317 | the offset lies in `[min(0, c-d), max(0, c-d)]`: an image that fits stays inside the container, one that does not covers it; a non-numeric proposal takes the centre `(c-d)/2`; an in-range proposal is kept |
| Viewport.ClampAxisIdempotent | admin/src/components/ImageAnnotatorModal.jsx:290-317 | clamping a clamped offset changes nothing |
| Viewport.VisibleExtent | admin/src/components/ImageAnnotatorModal.jsx:290-317 | after clamping, the visible part of the image along an axis is `min(c, d)` |
| Viewport.ClampPx | admin/src/components/ImageAnnotatorModal.jsx:290-317 | one axis in JavaScript arithmetic: a NaN proposal stays NaN, a finite one is clamped into the bounds, a missing one takes the centre, plus infinity the upper bound and minus infinity the lower bound |
| Viewport.ClampFinite | admin/src/components/ImageAnnotatorModal.jsx:290-321 | with image and container, a finite proposal gives finite offsets within the bounds on both axes |
| Viewport.ClampView | admin/src/components/ImageAnnotatorModal.jsx:273-321 | the zoom is set as proposed; without image or container the offset is the proposal or the origin; otherwise each axis is clamped by ClampPx, to the centre when nothing is proposed |
| Viewport.WheelZoom | admin/src/components/ImageAnnotatorModal.jsx:563-569 | the new zoom lies in `[0.05, 20]`; scrolling up multiplies and scrolling down divides by 1.08 when that stays in range |
| Viewport.WheelAxis | admin/src/components/ImageAnnotatorModal.jsx:566-574 | one axis of `c - ((c - o) / zoom) * newZoom`: at a non-zero zoom the image point under the cursor stays under it; at zoom 0 the axis goes to minus or plus infinity by the side of the cursor, or NaN on it; NaN stays NaN |
| Viewport.WheelOffset | admin/src/components/ImageAnnotatorModal.jsx:563-574 | before clamping, at a non-zero zoom the image point under the cursor maps back to the same container position on each finite axis; an axis becomes NaN exactly when it was NaN or, at zoom 0, the cursor sits on it |
| Viewport.WheelView | admin/src/components/ImageAnnotatorModal.jsx:559-577 | without a container nothing changes; otherwise the view takes a zoom in `[0.05, 20]`, at any stored zoom, and finite offsets stay finite when the stored zoom is not 0 |
| Viewport.WheelAtZeroZoom | admin/src/components/ImageAnnotatorModal.jsx:559-602 | a notch at the zoom 0 that fitting into an empty container stores goes to zoom 0.05, and each axis to the clamp bound on the far side of the cursor, or to NaN when the cursor is exactly on the offset |
| Viewport.ResetView | admin/src/components/ImageAnnotatorModal.jsx:582-585 | reset sets zoom 1 with the origin as its proposed offset, kept as the offset when nothing is mounted |
| Viewport.FitView | admin/src/components/ImageAnnotatorModal.jsx:587-602 | fitting needs a container and an image with both sizes; it then clamps the scale `min(cw/iw, ch/ih)` with the centring offset, a scale that is 0 for an empty container |
| Viewport.FitFits | admin/src/components/ImageAnnotatorModal.jsx:596 | the fitted image fits both container sides and fills one of them |
| Viewport.FitCentres | admin/src/components/ImageAnnotatorModal.jsx:596-600 | when the fitted image is at least one pixel on each side, the clamp keeps the centred offset |
| Viewport.CentredKept | admin/src/components/ImageAnnotatorModal.jsx:596-600 | at a scale where the image fits the container, the centring offset passes the clamp unchanged |
| Viewport.CentreInRange | admin/src/components/ImageAnnotatorModal.jsx:308-317 | a centred offset is always within the clamp bounds |
| Viewport.ClampKeepsInRange | admin/src/components/ImageAnnotatorModal.jsx:316-320 | an offset within the bounds is kept |
| Viewport.ScaleFits | admin/src/components/ImageAnnotatorModal.jsx:596 | `min(cw/iw, ch/ih)` scales the image to fit and fill one side |
| Annotations.IdNumberOfNewId | admin/src/components/ImageAnnotatorModal.jsx:405 | the id `a<n>` reads back as number n |
| Annotations.FreshId | admin/src/components/ImageAnnotatorModal.jsx:405 | an id `a<n>` whose n exceeds every stored id number is not in use |
| Annotations.MaxIdNumber | admin/src/components/ImageAnnotatorModal.jsx:108-112 | the largest number of a stored id of the form `a<digits>`, 0 when there is none |
| Annotations.ScanMaxId | admin/src/components/ImageAnnotatorModal.jsx:108-112 | the `forEach` over the restored annotations computes that largest id number |
| Annotations.RestoredBelow | admin/src/components/ImageAnnotatorModal.jsx:113 | a counter above the largest restored id number lies above every restored id |
| Annotations.Find | admin/src/components/ImageAnnotatorModal.jsx:436 | `find` gives the first annotation with the id, and nothing iff there is none |
| Annotations.Without | admin/src/components/ImageAnnotatorModal.jsx:336 | the filter keeps exactly the annotations with another id |
| Annotations.ReplaceById | admin/src/components/ImageAnnotatorModal.jsx:339-345 | the map replaces exactly the annotations with the id |
| Annotations.WithoutNothing | admin/src/components/ImageAnnotatorModal.jsx:336 | filtering out an absent id changes nothing |
| Annotations.WithoutAppend | admin/src/components/ImageAnnotatorModal.jsx:336 | filtering out an appended annotation's id removes it |
| Annotations.ReplaceTwice | admin/src/components/ImageAnnotatorModal.jsx:339-345 | replacing twice by the same id keeps only the second replacement |
| Annotations.ReplaceAlready | admin/src/components/ImageAnnotatorModal.jsx:339-345 | replacing by what is already there changes nothing |
| Annotations.Relabelled | admin/src/components/ImageAnnotatorModal.jsx:646 | the edited label keeps its id and position and takes the new text and colour |
| Annotations.Push | admin/src/components/ImageAnnotatorModal.jsx:326-329 | pushing an action appends one record to the undo stack and empties the redo stack |
| Annotations.UndoH | admin/src/components/ImageAnnotatorModal.jsx:331-350 | undo does nothing on an empty stack; otherwise it pops the top record and pushes it onto redo |
| Annotations.RedoH | admin/src/components/ImageAnnotatorModal.jsx:354-374 | redo does nothing on an empty stack; otherwise it pops the top record and pushes it onto undo |
| Annotations.UndoThenRedo | admin/src/components/ImageAnnotatorModal.jsx:331-376 | undoing a record and redoing it restores the annotations |
| Annotations.RedoThenUndo | admin/src/components/ImageAnnotatorModal.jsx:331-376 | redoing a record and undoing it restores the annotations |
| Annotations.RedoUndoIdentity | admin/src/components/ImageAnnotatorModal.jsx:331-376 | redo after undo restores the annotations and both stacks |
| Annotations.UndoRedoIdentity | admin/src/components/ImageAnnotatorModal.jsx:331-376 | undo after redo restores the annotations and both stacks |
| Annotations.AddUndoRedo | admin/src/components/ImageAnnotatorModal.jsx:336-359 | add, then undo, then redo gives back the same list with the same id and fields |
| Annotations.UndoRemoveAppends | admin/src/components/ImageAnnotatorModal.jsx:337 | undoing a removal re-appends the item at the end, so the order can change |
| Annotations.CtrlShiftZUndoes | admin/src/components/ImageAnnotatorModal.jsx:742-750 | as written, Ctrl+Shift+Z reaches the undo branch, never the redo one |
| Annotations.KeyCommand | admin/src/components/ImageAnnotatorModal.jsx:740-765 | the corrected key handler redoes on Ctrl+Shift+Z and otherwise acts as written |
| Annotations.Dragged | admin/src/components/ImageAnnotatorModal.jsx:461-468 | a dragged annotation keeps its id and its kind |
| Annotations.DragAll | admin/src/components/ImageAnnotatorModal.jsx:459-470 | a drag move changes exactly the annotations with the dragged id |
| Annotations.FoundIsAllMatches | admin/src/components/ImageAnnotatorModal.jsx:476 | with unique ids, the found annotation is the only one with its id |
| Annotations.Annotator.constructor | admin/src/components/ImageAnnotatorModal.jsx:25-93 | the annotator starts with no annotations, empty stacks, counter 1, the pan tool, a scale of 0.264 mm per pixel, no view to keep on load, and zoom 1 at the origin |
| Annotations.Annotator.PushAction | admin/src/components/ImageAnnotatorModal.jsx:326-329 | one record is appended to undo, redo is emptied, and nothing else changes |
| Annotations.Annotator.Undo | admin/src/components/ImageAnnotatorModal.jsx:331-352 | the history becomes its undo, the context menu closes, nothing else changes |
| Annotations.Annotator.Redo | admin/src/components/ImageAnnotatorModal.jsx:354-376 | the history becomes its redo, the context menu closes, nothing else changes |
| Annotations.Annotator.ConfirmAddLabel | admin/src/components/ImageAnnotatorModal.jsx:392-417 | empty text adds nothing and records nothing; otherwise one label `a<counter>` is appended, one add record is pushed and the counter grows by one; the dialog closes |
| Annotations.Annotator.AddMeasureFinal | admin/src/components/ImageAnnotatorModal.jsx:419-424 | one measurement `a<counter>` is appended, one add record pushed, the counter grows by one |
| Annotations.Annotator.RemoveAnnotation | admin/src/components/ImageAnnotatorModal.jsx:434-442 | an absent id changes neither the annotations nor the stacks; otherwise the first match is removed and a remove record pushed; the menu closes |
| Annotations.Annotator.OpenEditLabel | admin/src/components/ImageAnnotatorModal.jsx:617-627 | the dialog opens on the label's text, position, id and colour, the first palette colour when it has none |
| Annotations.Annotator.ConfirmEditLabel | admin/src/components/ImageAnnotatorModal.jsx:628-660 | without an edited id it confirms an add; a vanished label changes nothing; otherwise every annotation with the id is replaced by the relabelled one and one edit record pushed; the dialog closes |
| Annotations.Annotator.DragStart | admin/src/components/ImageAnnotatorModal.jsx:447-452 | the drag remembers the id, the part and the annotation before the move |
| Annotations.Annotator.DragMove | admin/src/components/ImageAnnotatorModal.jsx:454-471 | without a drag or an image point nothing changes; otherwise the dragged id moves to the point; the stacks are untouched |
| Annotations.Annotator.DragEnd | admin/src/components/ImageAnnotatorModal.jsx:473-483 | ending a drag whose annotation is found pushes one move record from before to after; the drag is cleared |
| Annotations.Annotator.ClampAndSet | admin/src/components/ImageAnnotatorModal.jsx:273-321 | the view becomes the clamped view and nothing else changes |
| Annotations.Annotator.PointerDown | admin/src/components/ImageAnnotatorModal.jsx:498-534 | a non-primary button or an ongoing drag does nothing; pan starts a pan; label opens the dialog at the point; measure stores the first point, and on the second adds one measurement and clears the first |
| Annotations.Annotator.PointerMove | admin/src/components/ImageAnnotatorModal.jsx:536-546 | while panning, the view is clamped at the start offset plus the pointer movement; otherwise nothing changes |
| Annotations.Annotator.PointerUp | admin/src/components/ImageAnnotatorModal.jsx:548 | the pan stops and nothing else changes |
| Annotations.Annotator.Wheel | admin/src/components/ImageAnnotatorModal.jsx:559-577 | at any stored zoom, the view becomes the wheel-zoomed, clamped view when there is a container, and nothing else changes |
| Annotations.Annotator.ResetToOrigin | admin/src/components/ImageAnnotatorModal.jsx:582-585 | the view becomes zoom 1 clamped at the origin, and the next image load fits again |
| Annotations.Annotator.FitToWindow | admin/src/components/ImageAnnotatorModal.jsx:587-602 | the view becomes the fitted view and the next image load fits again when container and image allow it; otherwise nothing changes |
| Annotations.Annotator.KeyDown | admin/src/components/ImageAnnotatorModal.jsx:740-765 | undo, redo, closing the label dialog or closing the viewer, according to the corrected key command, and nothing else |
| Annotations.Annotator.Restore | admin/src/components/ImageAnnotatorModal.jsx:96-131 | no saved state only clears the skip flag; saved annotations replace the list and the counter becomes `max(counter, largest id number + 1)`, so the next id is not in use; a saved scale is taken; a non-zero saved zoom is taken and marks the view to be kept on load; a saved offset is taken; the stacks stay |
| Annotations.Annotator.RestoreList | admin/src/components/ImageAnnotatorModal.jsx:104-114 | the list becomes the saved one and the counter rises past every restored id number |
| Annotations.Annotator.RestoreView | admin/src/components/ImageAnnotatorModal.jsx:115-124 | the saved scale, non-zero zoom and offset are taken, and the skip flag is set exactly when a zoom was taken |
| Annotations.Annotator.ImageLoaded | admin/src/components/ImageAnnotatorModal.jsx:1103-1119 | an image load fits to the window unless a restored view is to be kept; a kept view is re-clamped at its own zoom and offset |
| SegmentLabels.FixMaskAxes | AI/fundus-lesions-toolkit/run_segment.py:204-213 | a 2-D mask becomes (H, W, 1); a 3-D mask is transposed from channel-first to channel-last iff `d0 <= 32`, `d1 > d0` and `d2 > d0`, and is otherwise kept; any other dimension count is an error |
| SegmentLabels.FixMaskAxesIdempotent | AI/fundus-lesions-toolkit/run_segment.py:204-213 | fixing the axes of a fixed mask changes nothing more |
| SegmentLabels.ArgMax | AI/fundus-lesions-toolkit/run_segment.py:147 | the chosen channel holds a maximal score and is the first that does |
| SegmentLabels.ArgmaxToLabelMask | AI/fundus-lesions-toolkit/run_segment.py:140-148 | a mask that is not 3-D, or has no channels, is refused; otherwise the label mask has the mask's height and width |
| SegmentLabels.ThresholdLabels | AI/fundus-lesions-toolkit/run_segment.py:144-145 | with one channel a pixel is labelled 1 iff its score exceeds 0.5, and 0 otherwise |
| SegmentLabels.ArgmaxLabels | AI/fundus-lesions-toolkit/run_segment.py:146-147 | with 2 to 256 channels each label is a channel index holding a maximal score, the first such |
| SegmentLabels.ArgmaxWraps | AI/fundus-lesions-toolkit/run_segment.py:147 | the `uint8` cast wraps a channel index of 256 to 0 |
| SegmentLabels.ColorizeLabelMask | AI/fundus-lesions-toolkit/run_segment.py:150-157 | a pixel labelled `i < len(cmap)` gets colour `cmap[i]`; every other pixel stays black |
| SegmentLabels.PaintLabel | AI/fundus-lesions-toolkit/run_segment.py:154-156 | one colour pass paints exactly the pixels with that label and leaves the others |
| SegmentLabels.PaintInjective | AI/fundus-lesions-toolkit/run_segment.py:150-157 | with distinct colours in the map, distinct painted labels get distinct colours |
| SegmentLabels.EqMask | AI/fundus-lesions-toolkit/run_segment.py:195 | the label's mask is true exactly at the pixels with that label |
| SegmentLabels.Regions | AI/fundus-lesions-toolkit/run_segment.py:183-185 | the region entries of a list of components, one per component in order |
| SegmentLabels.UniqueFrom | AI/fundus-lesions-toolkit/run_segment.py:192 | `np.unique` lists every label of the mask once, ascending |
| SegmentLabels.PixelCountsTotal | AI/fundus-lesions-toolkit/run_segment.py:194-201 | the pixel counts of the distinct labels add up to H times W |
| SegmentLabels.SliceTo | AI/fundus-lesions-toolkit/run_segment.py:201 | `regions[:max_regions]`, a negative bound counting from the end |
| SegmentLabels.RegionInGrid | AI/fundus-lesions-toolkit/run_segment.py:183-185 | a component's box lies inside the grid and counts at least one pixel |
| SegmentLabels.AnalyzeLabel | AI/fundus-lesions-toolkit/run_segment.py:195-201 | a present label has its pixel count and coverage percentage; its regions are those of a decomposition of `lbl == v` into disjoint maximal 4-connected components in scan order (all of them below the cap, the first ones the scan meets at the cap), their number is `num_regions` and the list is cut at the cap |
| SegmentLabels.AnalyzeLabels | AI/fundus-lesions-toolkit/run_segment.py:190-202 | one entry per distinct label in ascending order, each as AnalyzeLabel states with its own components, with pixel counts summing to H times W |
| SegmentLabels.AnalyzeNext | AI/fundus-lesions-toolkit/run_segment.py:194-201 | one turn of the loop adds the entry of the next label, as AnalyzeLabel states it, after the entries already made |
| SegmentLabels.EntriesAt | AI/fundus-lesions-toolkit/run_segment.py:193-201 | every entry in the result is the one the loop body makes for its label |
| SegmentRegions.MinRow | AI/fundus-lesions-toolkit/run_segment.py:183-184 | the least row of the region's pixels |
| SegmentRegions.MaxRow | AI/fundus-lesions-toolkit/run_segment.py:183-184 | the greatest row of the region's pixels |
| SegmentRegions.MinCol | AI/fundus-lesions-toolkit/run_segment.py:183-184 | the least column of the region's pixels |
| SegmentRegions.MaxCol | AI/fundus-lesions-toolkit/run_segment.py:183-184 | the greatest column of the region's pixels |
| SegmentRegions.RegionOf | AI/fundus-lesions-toolkit/run_segment.py:183-185 | the pixel count is the number of pixels; the box `[xmin, ymin, xmax-xmin+1, ymax-ymin+1]` holds every pixel and touches the region on all four sides |
| SegmentRegions.Visit | AI/fundus-lesions-toolkit/run_segment.py:180-182 | a neighbour is queued iff it is a true pixel not yet visited, and `visited` then marks it |
| SegmentRegions.Expand | AI/fundus-lesions-toolkit/run_segment.py:179-182 | the four-neighbour step queues exactly the unvisited true neighbours, each once, and afterwards every true neighbour is visited |
| SegmentRegions.ConnectedExtend | AI/fundus-lesions-toolkit/run_segment.py:176-182 | adding neighbours of a region pixel keeps the region 4-connected |
| SegmentRegions.Flood | AI/fundus-lesions-toolkit/run_segment.py:173-182 | the breadth-first fill from an unvisited true pixel yields a non-empty, duplicate-free, 4-connected list of new true pixels starting there, with every true neighbour of each visited |
| SegmentRegions.NewComponent | AI/fundus-lesions-toolkit/run_segment.py:172-185 | the filled region is a maximal 4-connected component of the true pixels |
| SegmentRegions.FoundStep | AI/fundus-lesions-toolkit/run_segment.py:185 | appending the region keeps the list of regions made of disjoint maximal components with their boxes |
| SegmentRegions.ScanRow | AI/fundus-lesions-toolkit/run_segment.py:171-187 | one row of the scan keeps the regions disjoint maximal components in the order the scan starts them, stops only at the cap, and otherwise leaves every true pixel of the row in some region |
| SegmentRegions.OrderedStep | AI/fundus-lesions-toolkit/run_segment.py:170-173 | a component started at the first unvisited true pixel of the row-major scan comes after every earlier one: each true pixel scanned before its start lies in an earlier component |
| SegmentRegions.StartsAscending | AI/fundus-lesions-toolkit/run_segment.py:170-185 | components found in scan order start at strictly increasing row-major positions, and each starts at its own row-major first pixel |
| SegmentRegions.ConnectedComponentsBboxes | AI/fundus-lesions-toolkit/run_segment.py:165-188 | each region is a maximal 4-connected component of true pixels with its box and count; regions are pairwise disjoint; at most `max(1, max_regions)` are returned, and below the cap every true pixel lies in some region; the regions come in row-major order of their first pixels, each component starting at its own row-major first pixel, and every true pixel scanned before the start of a region (so at the cap, before the last one) lies in an earlier region, so at the cap they are the first components the scan meets |

## Left out

- Parsing: `JSON.parse` and `tryParseMaybeString` are not modelled. Their inputs are taken as already-parsed values, or a `parse` parameter stands in for them.
- Auth: token verification is a `verify` parameter, and the two `findById` lookups are parameters answering found, missing or failed. The id is passed to them as it is; a lookup that throws because the id is malformed counts as failed.
- Time and formatting: `new Date()`, date parsing, `toLocaleTimeString` and `toFixed` are parameters or uninterpreted formatters. The model never inspects their output.
- I/O: HTTP requests and responses, Mongoose queries and saves, multer uploads, GridFS streams, `fetch`, toasts, downloads and the DOM are not modelled. Responses enter as values; database writes leave as results.
- DoctorApi.DoctorPatients: the `.sort({ date: -1 })` of the query is not modelled. The appointments are taken in the order the database returns them, which the source sorts newest first. So a patient's entry comes from the first listed completed visit, which is the most recent one only when that input is date-descending.
- DoctorApi.DoctorDashboard: the `find({ docId })` query has no sort; the order the database returns appointments in is an input, and "latest" means the end of that order.
- SegmentLabels.AnalyzeLabels: pixel counts are whole numbers; numpy dtypes other than `uint8` labels are not modelled. The coverage percentage is an exact real, not a rounded float.
- DoctorApi.ReleaseSlotSpec: the release is stated for an array `slots_booked[slotDate]`; any other value is left unchanged and only that is stated.
- JsValues: `Number()` of a string reads only decimal digit strings (with surrounding white space); signs, exponents, hexadecimal and `Infinity` read as no number.
- JsValues.ToNumber: `Number(date)` is the date's time value in the source; the model has no clock or date parsing and reads a date as no number.
- AttachmentAnalysis.Gt: when either operand is an object, an array or a date, `>` first turns both into primitives, and if both come out as strings it compares the strings. An object becomes `"[object Object]"`, so `{} > "5"` is true. The model compares strings only when both operands are strings, and otherwise compares numbers. So `{} > "5"` reads as false, and an array compared with a string or an array is compared as numbers, not as text. `LargestFrom` and `LargestRegion` inherit this when a `pixel_count` is an object or an array. An object or an array compared with a number is read as in the source; a date is not, as `JsValues.ToNumber` says.
- AppointmentDetails.Remaining: a `null` or `undefined` entry in the attachment list makes `a.fileId` throw inside the state updater in the source; the model reads it as not matching and keeps it.
- AppointmentList.Search, PatientDetails.SlotSearch, Auth.RoleOf, Auth.RequireRole: `toLowerCase` is modelled for the ASCII letters only; other upper-case letters are left as they are.
- JsValues: outside the annotator's view offsets, NaN is never stored. A computation that would store NaN stores `null` or returns no value, as each member says.
- AttachmentAnalysis.SortLabels: a label key that is not a decimal numeral ranks as 0 in the numeric sort, as `Number(k) || 0` cannot be told apart further in the model.
- AttachmentAnalysis.GenerateSummary: an `analysis` that is truthy but not an object is treated as having no labels.
- Object spreads: spreading an array or a string is read as spreading `{}`.
- CompleteModal.HasName: a truthy `name` that is not a string makes `.trim` throw in the source; the model reads it as blank.
- CompleteModal.KeptRows: a `null` prescription row makes `p.name` throw in the source; the model reads it as a row without a name.
- AppointmentDetails.UpdatePrescription: a negative index is not modelled (the index is a `nat`). Holes the source leaves when writing past the end are read as `undefined`.
- AppointmentDetails.DropFromAppointment: a clinical record that is an array is treated like any other non-object, which has no `attachments`.
- AppointmentDetails.RenderValue: `JSON.stringify` is not modelled. The result says which value is serialized, not the text.
- AppointmentDetails: the `globalEdit` and `savingSection` UI flags and the `saveSection` response handling are not modelled.
- CompleteModal.HandleSave: the upload loop (lines 154-171) is an input, the list of uploaded attachments. The message of the TypeError the code filter throws comes from the JavaScript engine and is not modelled; the outcome only records that the save ended in the catch.
- Annotator: export rendering with its fetch fallback, the scroll lock, event listeners, the SVG overlay, `adjustOverlay` and the coordinate helpers based on `getBoundingClientRect` are not modelled. `Math.hypot` and `computeDistanceMm` are not modelled either; a measurement stores its two points.
- Segmentation: `hsv_to_rgb`, `make_color_map` and `blend_overlay` are floating point and are not modelled. The colour map is an input.
- Booking.Free: a truthy `slots_booked[key]` that is neither an array nor a string makes `.includes` throw in the source; the model counts the slot as free.
- Presentational components and pages without decisions are not modelled.
- Annotations.Annotator.Restore: a saved offset is taken when its `x` is a number; an offset whose `y` is not a number is not modelled (the saved offset is a point).
- Annotations.Annotator: `clearSavedState` and the auto-save effect write `localStorage` and are not modelled.
- Annotations.ReplaceById: the merge `{...a, ...before}` is modelled with full snapshots, so the merge is the snapshot itself.
- Object identity: objects compared with `===` are treated as never equal, because the model has no references.
- RecordRoutes.PatchIndex: the literal id `"undefined"` matches the first attachment without an `_id` (RecordRoutes.UndefinedIdMatchesFirst states this); the source evidently relies on callers never sending it, so it is not claimed as a defect.

## Findings

| source | as written | input that shows it | evidently intended | confidence | as-written member | corrected member |
|---|---|---|---|---|---|---|
| frontend/src/pages/MyAppointments.jsx:37 | the month part is used as an index into the 0-based month list | a booking on 5 January 2025 is stored as `5_1_2025` by frontend/src/pages/Appointment.jsx and shown as "5 Feb 2025"; a December date shows "undefined" | `months[Number(dateArray[1]) - 1]` | not executed | MyAppointments.AsWrittenDiffers | MyAppointments.FormatsBookingKey |
| admin/src/components/ImageAnnotatorModal.jsx:742-750 | the undo branch accepts `z` or `Z` with Ctrl or Meta, and it comes before the redo branch that looks for Shift | Ctrl+Shift+Z undoes instead of redoing | test Shift in the undo branch, so that Ctrl+Shift+Z redoes | not executed | Annotations.CtrlShiftZUndoes | Annotations.KeyCommand |
| admin/src/components/DoctorCompleteModal.jsx:141-144 | validation accepts any prescription whose `name` is truthy | an empty diagnosis and one prescription named `" "` pass validation, and the payload then carries no diagnosis and no prescription | refuse the form when the diagnosis is blank and no prescription has a non-blank name, as the payload filter reads names | not executed | CompleteModal.AsWrittenPostsEmptyForm | CompleteModal.HandleSaveCorrected |
