/** The attachment routes (backend/routes/medicalRecordRoutes.js): building the record of an uploaded
    file and the two handlers that update one field of one stored attachment. Storing the file
    bytes is outside the model: its outcome (`Saved`) is an input. */
module RecordRoutes {
  import opened JsValues
  import opened Appointments

  /** What the upload middleware reports about the received file. */
  datatype UploadedFile = UploadedFile(originalname: string, mimetype: string)

  /** What the file store returns: the new file's id (possibly absent) and its streaming path. */
  datatype Saved = Saved(fileId: Js, streamUrl: string)

  // ---------------------------------------------------------------- upload

  /** The public base address: the configured backend address without one trailing slash when it
      is set and not blank, otherwise the address the request came in on. */
  function BaseUrl(backendUrl: Option<string>, protocol: string, host: string): (b: string)
    ensures backendUrl.Some? && Trim(backendUrl.value) != "" ==>
      b == StripTrailingSlash(backendUrl.value) && b <= backendUrl.value && |backendUrl.value| - 1 <= |b|
    ensures !(backendUrl.Some? && Trim(backendUrl.value) != "") ==> b == protocol + "://" + host
  {
    if backendUrl.Some? && Trim(backendUrl.value) != "" then StripTrailingSlash(backendUrl.value)
    else protocol + "://" + host
  }

  /** `{ url, filename, type, uploadedBy, uploadedAt, fileId, doctorNotes: "", aiAnalysis: {} }` */
  function UploadFields(url: Js, filename: Js, typ: Js, uploadedBy: Js, fileId: Js): (fs: seq<Field>)
    ensures Lookup(fs, "url") == url && Lookup(fs, "filename") == filename && Lookup(fs, "type") == typ
    ensures Lookup(fs, "uploadedBy") == uploadedBy && Lookup(fs, "fileId") == fileId
    ensures Lookup(fs, "doctorNotes") == Str("") && Lookup(fs, "aiAnalysis") == Obj([])
  {
    var fs := [Field("url", url), Field("filename", filename), Field("type", typ),
               Field("uploadedBy", uploadedBy), Field("uploadedAt", Date(None)),
               Field("fileId", fileId), Field("doctorNotes", Str("")), Field("aiAnalysis", Obj([]))];
    LookupAt(fs, 1, "filename");
    LookupAt(fs, 2, "type");
    LookupAt(fs, 3, "uploadedBy");
    LookupAt(fs, 5, "fileId");
    LookupAt(fs, 6, "doctorNotes");
    LookupAt(fs, 7, "aiAnalysis");
    fs
  }

  /** The attachment record the upload handler pushes. */
  function NewAttachment(url: string, file: UploadedFile, user: Js, saved: Saved): (a: Js)
    ensures a.Obj? && Get(a, "url") == Str(url)
    ensures Get(a, "filename") == Str(file.originalname) && Get(a, "type") == Str(file.mimetype)
    ensures Get(a, "uploadedBy") == Get(user, "id")
    ensures FirstTruthy([saved.fileId], Undef, Get(a, "fileId"))
    ensures Get(a, "doctorNotes") == Str("") && Get(a, "aiAnalysis") == Obj([])
  {
    Obj(UploadFields(Str(url), Str(file.originalname), Str(file.mimetype), Get(user, "id"), Chain([saved.fileId], Undef)))
  }

  /** The upload handler. The answer carries the new attachment and the updated appointment, which
      is absent when the appointment does not exist (the upload still succeeds). */
  function Upload(file: Option<UploadedFile>, saved: Saved, backendUrl: Option<string>, protocol: string, host: string,
                  user: Js, found: Option<Appointment>): (r: Reply<(Js, Option<Appointment>)>)
    ensures file.None? <==> r == Fail(400, "No file uploaded")
    ensures r.Done? ==>
      var (att, updated) := r.value;
      Get(att, "url") == Str(BaseUrl(backendUrl, protocol, host) + saved.streamUrl) &&
      Get(att, "doctorNotes") == Str("") && Get(att, "aiAnalysis") == Obj([]) &&
      updated.Some? == found.Some? &&
      (found.Some? ==> updated.value == found.value.(clinical := found.value.clinical.(attachments := found.value.clinical.attachments + [att])))
  {
    if file.None? then Fail(400, "No file uploaded")
    else
      var att := NewAttachment(BaseUrl(backendUrl, protocol, host) + saved.streamUrl, file.value, user, saved);
      var updated :=
        if found.Some? then Some(found.value.(clinical := found.value.clinical.(attachments := found.value.clinical.attachments + [att])))
        else None;
      Done((att, updated))
  }

  // ---------------------------------------------------------------- single-attachment updates

  /** `String(a.fileId) === String(fileId) || String(a._id) === String(fileId)` */
  predicate PatchMatch(a: Js, fid: string, f: Formatters) {
    ToStr(Get(a, "fileId"), f) == fid || ToStr(Get(a, "_id"), f) == fid
  }

  function PatchIndex(atts: seq<Js>, fid: string, f: Formatters): (i: int)
    ensures -1 <= i < |atts|
    ensures i >= 0 ==> PatchMatch(atts[i], fid, f) && forall j :: 0 <= j < i ==> !PatchMatch(atts[j], fid, f)
    ensures i == -1 <==> forall j :: 0 <= j < |atts| ==> !PatchMatch(atts[j], fid, f)
  {
    FindIndex(atts, a => PatchMatch(a, fid, f))
  }

  /** `$set` of `clinical.attachments.<i>.<key>` */
  function SetAttachmentField(a: Appointment, i: int, key: string, v: Js): (r: Appointment)
    requires 0 <= i < |a.clinical.attachments|
    ensures r == a.(clinical := a.clinical.(attachments := r.clinical.attachments))
    ensures |r.clinical.attachments| == |a.clinical.attachments|
    ensures forall j :: 0 <= j < |a.clinical.attachments| && j != i ==> r.clinical.attachments[j] == a.clinical.attachments[j]
    ensures Get(r.clinical.attachments[i], key) == v
    ensures forall k :: k != key ==> Get(r.clinical.attachments[i], k) == Get(a.clinical.attachments[i], k)
  {
    var atts := a.clinical.attachments;
    a.(clinical := a.clinical.(attachments := atts[i := With(atts[i], key, v)]))
  }

  /** The part both PATCH handlers share once the new value has been accepted. */
  function PatchField(found: Option<Appointment>, fid: string, key: string, v: Js, f: Formatters): (r: Reply<Appointment>)
    ensures found.None? ==> r == Fail(404, "Appointment not found")
    ensures found.Some? && PatchIndex(found.value.clinical.attachments, fid, f) == -1 ==> r == Fail(404, "Attachment not found")
    ensures found.Some? && PatchIndex(found.value.clinical.attachments, fid, f) >= 0 ==>
      r == Done(SetAttachmentField(found.value, PatchIndex(found.value.clinical.attachments, fid, f), key, v))
  {
    if found.None? then Fail(404, "Appointment not found")
    else
      var i := PatchIndex(found.value.clinical.attachments, fid, f);
      if i == -1 then Fail(404, "Attachment not found")
      else Done(SetAttachmentField(found.value, i, key, v))
  }

  /** Destructuring a missing request body throws, which the handlers answer with 500. */
  predicate NoBody(body: Js) {
    body == Undef || body == Null
  }

  /** PATCH .../attachments/:fileId/doctor-notes */
  function PatchDoctorNotes(found: Option<Appointment>, fid: string, body: Js, f: Formatters): (r: Reply<Appointment>)
    ensures NoBody(body) ==> r == Fail(500, "Server error")
    ensures !NoBody(body) && !Get(body, "doctorNotes").Str? ==> r == Fail(400, "doctorNotes required")
    ensures !NoBody(body) && Get(body, "doctorNotes").Str? ==> r == PatchField(found, fid, "doctorNotes", Get(body, "doctorNotes"), f)
  {
    if NoBody(body) then Fail(500, "Server error")
    else if TypeOf(Get(body, "doctorNotes")) != "string" then Fail(400, "doctorNotes required")
    else PatchField(found, fid, "doctorNotes", Get(body, "doctorNotes"), f)
  }

  /** PATCH .../attachments/:fileId/ai */
  function PatchAiAnalysis(found: Option<Appointment>, fid: string, body: Js, f: Formatters): (r: Reply<Appointment>)
    ensures NoBody(body) ==> r == Fail(500, "Server error")
    ensures !NoBody(body) && !Truthy(Get(body, "aiAnalysis")) ==> r == Fail(400, "aiAnalysis required")
    ensures !NoBody(body) && Truthy(Get(body, "aiAnalysis")) ==> r == PatchField(found, fid, "aiAnalysis", Get(body, "aiAnalysis"), f)
  {
    if NoBody(body) then Fail(500, "Server error")
    else if !Truthy(Get(body, "aiAnalysis")) then Fail(400, "aiAnalysis required")
    else PatchField(found, fid, "aiAnalysis", Get(body, "aiAnalysis"), f)
  }

  /** A successful notes update changes the notes of the first matching attachment and nothing else. */
  lemma DoctorNotesOnlyThatSlot(found: Option<Appointment>, fid: string, body: Js, f: Formatters)
    requires PatchDoctorNotes(found, fid, body, f).Done?
    ensures var old_ := found.value.clinical.attachments;
      var new_ := PatchDoctorNotes(found, fid, body, f).value.clinical.attachments;
      var i := PatchIndex(old_, fid, f);
      0 <= i < |old_| && PatchMatch(old_[i], fid, f) && |new_| == |old_| &&
      (forall j :: 0 <= j < |old_| && j != i ==> new_[j] == old_[j]) &&
      Get(new_[i], "doctorNotes") == Get(body, "doctorNotes") && Get(body, "doctorNotes").Str? &&
      (forall k :: k != "doctorNotes" ==> Get(new_[i], k) == Get(old_[i], k))
  {
  }

  /** As written, the id parameter "undefined" selects the first attachment without an `_id`
      (attachments are stored without one), whatever its own fileId is. */
  lemma UndefinedIdMatchesFirst(atts: seq<Js>, f: Formatters)
    requires |atts| > 0 && Get(atts[0], "_id") == Undef
    ensures PatchIndex(atts, "undefined", f) == 0
  {
  }
}
