/** The doctor's page for one appointment (admin/src/pages/Doctor/DoctorAppointmentDetails.jsx):
    the token and headers its requests carry, the local update after an attachment is deleted,
    the body a section save posts, the editing of the draft's prescriptions, and which values
    are shown as a blank line. */
module AppointmentDetails {
  import opened JsValues
  import Auth
  import MyAppointments
  import CompleteModal

  // ---------------------------------------------------------------- token and headers

  /** `getAuthToken`: the context's `dToken`, then the stored `dToken`, `token` and `authToken`,
      and "" when none of them is set. */
  function AuthToken(dToken: string, ls: string -> Option<string>): (t: string)
    ensures FirstTruthy([Str(dToken), CompleteModal.Stored(ls, "dToken"), CompleteModal.Stored(ls, "token"),
      CompleteModal.Stored(ls, "authToken")], Str(""), Str(t))
  {
    var v := Chain([Str(dToken), CompleteModal.Stored(ls, "dToken"), CompleteModal.Stored(ls, "token"),
      CompleteModal.Stored(ls, "authToken")], Str(""));
    if v.Str? then v.s else ""
  }

  /** `getAuthHeaders`: no header without a token; with one, both `dToken` and a bearer
      `Authorization` carry it. */
  function AuthHeaders(token: string): (h: seq<Field>)
    ensures h == [] <==> token == ""
    ensures token != "" ==> (Lookup(h, "dToken") == Str(token) &&
      Lookup(h, "Authorization") == Str(MyAppointments.BearerHeader(token)))
  {
    if Truthy(Str(token)) then [Field("dToken", Str(token)), Field("Authorization", Str("Bearer " + token))]
    else []
  }

  /** The backend's middleware reads the page's token back from the `Authorization` header. */
  lemma HeadersCarryToken(token: string)
    requires token != "" && NoneIn(token, {' '})
    ensures Lookup(AuthHeaders(token), "Authorization").Str? &&
      Auth.TokenOf(Lookup(AuthHeaders(token), "Authorization").s) == token
  {
    MyAppointments.BearerRoundTrip(token);
  }

  // ---------------------------------------------------------------- deleting an attachment

  /** `att.fileId || att._id || att.id || att.public_id || undefined` */
  function DeleteId(att: Js): (id: Js)
    ensures FirstTruthy([Get(att, "fileId"), Get(att, "_id"), Get(att, "id"), Get(att, "public_id")], Undef, id)
  {
    Chain([Get(att, "fileId"), Get(att, "_id"), Get(att, "id"), Get(att, "public_id")], Undef)
  }

  /** `matches(a)`: same file id (by `fileId` or `_id`, compared as strings) or same url. */
  predicate Matches(a: Js, fileId: Js, att: Js, f: Formatters) {
    (Truthy(Get(a, "fileId")) && Truthy(fileId) && ToStr(Get(a, "fileId"), f) == ToStr(fileId, f)) ||
    (Truthy(Get(a, "_id")) && Truthy(fileId) && ToStr(Get(a, "_id"), f) == ToStr(fileId, f)) ||
    (Truthy(Get(a, "url")) && StrictEq(Get(a, "url"), Get(att, "url")))
  }

  /** The attachments left after a delete the server did not answer with the appointment:
      every matching one goes, the others stay in their order. */
  function Remaining(list: seq<Js>, fileId: Js, att: Js, f: Formatters): (r: seq<Js>)
    ensures IsSubseq(r, list)
    ensures forall a :: a in r <==> a in list && !Matches(a, fileId, att, f)
  {
    Filter(list, a => !Matches(a, fileId, att, f))
  }

  /** The deleted attachment itself is gone, when it has a `fileId`, an `_id` or a url. */
  lemma DeletedIsGone(list: seq<Js>, att: Js, f: Formatters)
    requires Truthy(Get(att, "fileId")) || Truthy(Get(att, "_id")) ||
      (Truthy(Get(att, "url")) && StrictEq(Get(att, "url"), Get(att, "url")))
    ensures att !in Remaining(list, DeleteId(att), att, f)
  {
    var cands := [Get(att, "fileId"), Get(att, "_id"), Get(att, "id"), Get(att, "public_id")];
    if Truthy(cands[0]) {
      assert DeleteId(att) == cands[0];
    } else if Truthy(cands[1]) {
      assert DeleteId(att) == cands[1];
    }
    assert Matches(att, DeleteId(att), att, f);
  }

  /** `(v || [])` used as a list: None when it is something else, which has no `filter`. */
  function ListOr(v: Js): (r: Option<seq<Js>>)
    ensures !Truthy(v) ==> r == Some([])
    ensures Truthy(v) ==> (r.Some? <==> v.Arr?) && (v.Arr? ==> r == Some(v.items))
  {
    var x := Or(v, Arr([]));
    if x.Arr? then Some(x.items) else None
  }

  function AttachmentsOf(v: Js): Option<seq<Js>> {
    ListOr(Get(v, "attachments"))
  }

  /** The shown appointment after such a delete: its clinical record keeps everything but the
      matching attachments. No appointment stays none; a record that is not an object, or
      attachments that are not a list, make the update fail. */
  function DropFromAppointment(prev: Js, fileId: Js, att: Js, f: Formatters): (r: Option<Js>)
    ensures !Truthy(prev) ==> r == Some(prev)
    ensures Truthy(prev) ==> var clinical := Or(Get(prev, "clinical"), Obj([]));
      (r.Some? <==> clinical.Obj? && AttachmentsOf(clinical).Some?) &&
      (r.Some? ==> ((forall k :: k != "clinical" ==> Get(r.value, k) == Get(prev, k)) &&
        (forall k :: k != "attachments" ==> Get(Get(r.value, "clinical"), k) == Get(clinical, k)) &&
        AttachmentsOf(Get(r.value, "clinical")) == Some(Remaining(AttachmentsOf(clinical).value, fileId, att, f))))
  {
    if !Truthy(prev) then Some(prev)
    else
      var clinical := Or(Get(prev, "clinical"), Obj([]));
      var list := AttachmentsOf(clinical);
      if !clinical.Obj? || list.None? then None
      else Some(With(prev, "clinical", With(clinical, "attachments", Arr(Remaining(list.value, fileId, att, f)))))
  }

  /** The draft after such a delete: the same attachments go from it. */
  function DropFromDraft(prev: Js, fileId: Js, att: Js, f: Formatters): (r: Option<Js>)
    ensures !Truthy(prev) ==> r == Some(prev)
    ensures Truthy(prev) ==> ((r.Some? <==> AttachmentsOf(prev).Some?) &&
      (r.Some? ==> ((forall k :: k != "attachments" ==> Get(r.value, k) == Get(prev, k)) &&
        AttachmentsOf(r.value) == Some(Remaining(AttachmentsOf(prev).value, fileId, att, f)))))
  {
    if !Truthy(prev) then Some(prev)
    else
      var list := AttachmentsOf(prev);
      if list.None? then None
      else Some(With(prev, "attachments", Arr(Remaining(list.value, fileId, att, f))))
  }

  /** A draft in step with the appointment's record stays in step after the delete. */
  lemma DeleteKeepsDraftInStep(appointment: Js, fileId: Js, att: Js, f: Formatters)
    requires appointment.Obj? && Get(appointment, "clinical").Obj?
    requires DropFromAppointment(appointment, fileId, att, f).Some?
    ensures DropFromDraft(Get(appointment, "clinical"), fileId, att, f).Some?
    ensures Get(DropFromAppointment(appointment, fileId, att, f).value, "clinical") ==
      DropFromDraft(Get(appointment, "clinical"), fileId, att, f).value
  {
  }

  // ---------------------------------------------------------------- saving a section

  const Sections: seq<string> := ["diagnosis", "prescriptions", "doctorNotes", "vitals"]

  /** What a section sends when the draft has nothing for it. */
  function Default(k: string): Js {
    if k == "diagnosis" then Obj([Field("text", Str(""))])
    else if k == "prescriptions" then Arr([])
    else if k == "doctorNotes" then Str("")
    else Obj([])
  }

  /** The sections a save sends: the named one, or all four for any other value. */
  function Carried(section: Js): seq<string> {
    if section.Str? && section.s in Sections then [section.s] else Sections
  }

  /** The draft's value for section k, or its default. */
  function Section(temp: Js, k: string): Field {
    Field(k, Or(Get(temp, k), Default(k)))
  }

  /** An association list of the given sections, in that order. */
  lemma {:induction false} SectionsRead(temp: Js, ks: seq<string>, fs: seq<Field>)
    requires |fs| == |ks| && forall i :: 0 <= i < |ks| ==> fs[i] == Section(temp, ks[i])
    ensures Keys(fs) == ks
    ensures forall k :: k in ks ==> Lookup(fs, k) == Or(Get(temp, k), Default(k))
  {
    if fs != [] {
      assert forall i :: 0 <= i < |ks[1..]| ==> fs[1..][i] == Section(temp, ks[1..][i]);
      SectionsRead(temp, ks[1..], fs[1..]);
    }
  }

  /** The section part of `saveSection`'s payload. */
  function SectionFields(section: Js, temp: Js): (fs: seq<Field>)
    ensures Keys(fs) == Carried(section)
    ensures forall k :: k in Carried(section) ==> Lookup(fs, k) == Or(Get(temp, k), Default(k))
  {
    var fs :=
      if section == Str("diagnosis") then [Section(temp, "diagnosis")]
      else if section == Str("prescriptions") then [Section(temp, "prescriptions")]
      else if section == Str("doctorNotes") then [Section(temp, "doctorNotes")]
      else if section == Str("vitals") then [Section(temp, "vitals")]
      else [Section(temp, "diagnosis"), Section(temp, "prescriptions"), Section(temp, "doctorNotes"), Section(temp, "vitals")];
    SectionsRead(temp, Carried(section), fs);
    fs
  }

  /** `Array.isArray(clinical.attachments) ? clinical.attachments : []` for the shown record. */
  function ShownAttachments(appointment: Js): seq<Js> {
    var a := Get(Or(Get(appointment, "clinical"), Obj([])), "attachments");
    if a.Arr? then a.items else []
  }

  /** `tempClinical.attachments ?? appointment.clinical?.attachments ?? attachments ?? []` */
  function AttachSource(temp: Js, appointment: Js): Js {
    Nullish(Get(temp, "attachments"),
      Nullish(Get(Get(appointment, "clinical"), "attachments"),
        Nullish(Arr(ShownAttachments(appointment)), Arr([]))))
  }

  /** The draft's attachments win; when neither the draft nor the record has any, the list is empty. */
  lemma SourceFallsBack(temp: Js, appointment: Js)
    ensures Get(temp, "attachments") != Undef && Get(temp, "attachments") != Null ==>
      AttachSource(temp, appointment) == Get(temp, "attachments")
    ensures ((Get(temp, "attachments") == Undef || Get(temp, "attachments") == Null) &&
      (Get(Get(appointment, "clinical"), "attachments") == Undef || Get(Get(appointment, "clinical"), "attachments") == Null))
      ==> AttachSource(temp, appointment) == Arr([])
  {
  }

  /** The id fields of an attachment, in the order `saveSection` tries them. */
  function Candidates(a: Js): seq<Js> {
    [Get(a, "fileId"), Get(a, "_id"), Get(a, "id"), Get(a, "public_id"), Get(a, "file_id")]
  }

  /** An attachment as a save sends it: strings and empty entries unchanged, any other entry
      with `fileId` set from `fileId`, `_id`, `id`, `public_id`, `file_id`, in that order. */
  function WithFileId(a: Js): (r: Js)
    ensures !Truthy(a) || a.Str? ==> r == a
    ensures Truthy(a) && !a.Str? ==> (FirstTruthy(Candidates(a), Undef, Get(r, "fileId")) &&
      forall k :: k != "fileId" ==> Get(r, k) == Get(a, k))
  {
    if !Truthy(a) || TypeOf(a) == "string" then a
    else With(a, "fileId", Chain(Candidates(a), Undef))
  }

  /** Writing back the value a key already has changes nothing. */
  lemma {:induction false} PutSame(fs: seq<Field>, k: string)
    requires k in Keys(fs)
    ensures Put(fs, k, Lookup(fs, k)) == fs
  {
    if fs[0].key != k {
      assert Keys(fs) == [fs[0].key] + Keys(fs[1..]);
      PutSame(fs[1..], k);
    }
  }

  /** After the fill, the id fields are the chosen id followed by the others as they were. */
  lemma CandidatesAfterFill(a: Js)
    requires Truthy(a) && !a.Str?
    ensures WithFileId(a).Obj? && "fileId" in Keys(WithFileId(a).fields)
    ensures Candidates(WithFileId(a)) == [Chain(Candidates(a), Undef)] + Candidates(a)[1..]
  {
    var fs := if a.Obj? then a.fields else [];
    var c := Chain(Candidates(a), Undef);
    var r := Put(fs, "fileId", c);
    assert WithFileId(a) == Obj(r);
    FillReads(fs, c);
    assert forall k :: Get(a, k) == Lookup(fs, k);
  }

  /** The fill writes `fileId` and leaves the other id fields as they were. */
  lemma FillReads(fs: seq<Field>, c: Js)
    ensures "fileId" in Keys(Put(fs, "fileId", c))
    ensures var r := Put(fs, "fileId", c);
      [Lookup(r, "fileId"), Lookup(r, "_id"), Lookup(r, "id"), Lookup(r, "public_id"), Lookup(r, "file_id")] ==
      [c, Lookup(fs, "_id"), Lookup(fs, "id"), Lookup(fs, "public_id"), Lookup(fs, "file_id")]
  {
    var r := Put(fs, "fileId", c);
    if "fileId" !in Keys(fs) {
      assert r[|fs|].key == "fileId";
    }
  }

  /** Saving twice sends the same attachments: the id fill is idempotent. */
  lemma WithFileIdIdempotent(a: Js)
    ensures WithFileId(WithFileId(a)) == WithFileId(a)
  {
    if Truthy(a) && !a.Str? {
      var r := WithFileId(a);
      CandidatesAfterFill(a);
      ChainAgain(Candidates(a), Undef);
      assert Chain(Candidates(r), Undef) == Get(r, "fileId");
      PutSame(r.fields, "fileId");
    }
  }

  /** `attachSource.map(...)` */
  function NormalizeAll(src: seq<Js>): (r: seq<Js>)
    ensures |r| == |src| && forall i :: 0 <= i < |src| ==> r[i] == WithFileId(src[i])
  {
    seq(|src|, i requires 0 <= i < |src| => WithFileId(src[i]))
  }

  /** `saveSection`'s payload: the carried sections, then the attachments; an attachment source
      that is not a list has no `map`, and the save fails. */
  function SavePayload(section: Js, temp: Js, appointment: Js): (r: Option<seq<Field>>)
    ensures r.None? <==> !AttachSource(temp, appointment).Arr?
    ensures r.Some? ==> (Keys(r.value) == Carried(section) + ["attachments"] &&
      (forall k :: k in Carried(section) ==> Lookup(r.value, k) == Or(Get(temp, k), Default(k))) &&
      Lookup(r.value, "attachments") == Arr(NormalizeAll(AttachSource(temp, appointment).items)))
  {
    var src := AttachSource(temp, appointment);
    if !src.Arr? then None
    else
      var fs := SectionFields(section, temp);
      var more := [Field("attachments", Arr(NormalizeAll(src.items)))];
      assert Keys(fs + more) == Keys(fs) + Keys(more);
      LookupAppend(fs, more, "attachments");
      assert forall k :: k in Carried(section) ==> Lookup(fs + more, k) == Lookup(fs, k) by {
        forall k | k in Carried(section) {
          LookupAppend(fs, more, k);
        }
      }
      Some(fs + more)
  }

  // ---------------------------------------------------------------- editing the draft's prescriptions

  /** `createEmptyRx()` on this page, stamped with `new Date()`. */
  const NewRx: Js := Obj([Field("name", Str("")), Field("form", Str("")), Field("dose", Str("")),
    Field("frequency", Str("")), Field("duration", Str("")), Field("instructions", Str("")),
    Field("createdAt", Date(None))])

  /** `[...(v || [])]`: the spread copies any iterable. An array gives its elements and a string its
      characters, one string each; None when the value is truthy and not iterable, which throws. */
  function SpreadOr(v: Js): (r: Option<seq<Js>>)
    ensures !Truthy(v) ==> r == Some([])
    ensures Truthy(v) ==> (r.Some? <==> v.Arr? || v.Str?)
    ensures v.Arr? ==> r == Some(v.items)
    ensures v.Str? ==> r.Some? && |r.value| == |v.s| && forall i :: 0 <= i < |v.s| ==> r.value[i] == Str([v.s[i]])
  {
    match Or(v, Arr([]))
    case Arr(items) => Some(items)
    case Str(s) => Some(Chars(s))
    case _ => None
  }

  /** The characters of a string, each as a one-character string. */
  function Chars(s: string): (r: seq<Js>)
    ensures |r| == |s| && forall i :: 0 <= i < |s| ==> r[i] == Str([s[i]])
  {
    if s == [] then [] else [Str([s[0]])] + Chars(s[1..])
  }

  /** `[...(prev?.prescriptions || [])]`: the draft's prescriptions copied. */
  function RxList(prev: Js): Option<seq<Js>> {
    SpreadOr(Get(prev, "prescriptions"))
  }

  /** A draft whose prescriptions are the text "ab" is copied as the rows "a" and "b". */
  lemma TextRxSpreads()
    ensures RxList(Obj([Field("prescriptions", Str("ab"))])) == Some([Str("a"), Str("b")])
  {
    var prev := Obj([Field("prescriptions", Str("ab"))]);
    assert Get(prev, "prescriptions") == Str("ab");
    assert "ab"[1..] == "b" && "b"[1..] == "";
    assert Chars("ab") == [Str("a")] + Chars("b") == [Str("a"), Str("b")];
  }

  /** `{ ...(prev || {}), prescriptions: list }` */
  function WithRx(prev: Js, list: seq<Js>): (r: Js)
    ensures RxList(r) == Some(list)
    ensures forall k :: k != "prescriptions" ==> Get(r, k) == Get(prev, k)
  {
    With(Or(prev, Obj([])), "prescriptions", Arr(list))
  }

  /** `addPrescription`: one new empty row at the end. */
  method AddPrescription(prev: Js) returns (next: Option<Js>)
    ensures next.None? <==> RxList(prev).None?
    ensures next.Some? ==> (RxList(next.value) == Some(RxList(prev).value + [NewRx]) &&
      forall k :: k != "prescriptions" ==> Get(next.value, k) == Get(prev, k))
  {
    var copy := RxList(prev);
    if copy.None? {
      return None;
    }
    var list := copy.value;
    list := list + [NewRx];
    next := Some(WithRx(prev, list));
  }

  /** Where `splice(index, 1)` starts: a negative index counts from the end. */
  function SpliceStart(len: nat, index: int): (p: nat)
    ensures p <= len
    ensures 0 <= index <= len ==> p == index
    ensures index > len ==> p == len
    ensures index < 0 ==> p == if len + index < 0 then 0 else len + index
  {
    if index < 0 then (if len + index < 0 then 0 else len + index)
    else if index > len then len
    else index
  }

  /** `removePrescription`: the row at `index` goes, as the form's filter removes it; an index
      past the end changes nothing, and a negative one counts from the end. */
  method RemovePrescription(prev: Js, index: int) returns (next: Option<Js>)
    ensures next.None? <==> RxList(prev).None?
    ensures next.Some? ==> forall k :: k != "prescriptions" ==> Get(next.value, k) == Get(prev, k)
    ensures next.Some? ==> var l := RxList(prev).value;
      RxList(next.value) == Some(CompleteModal.RemoveAt(l, SpliceStart(|l|, index)))
    ensures next.Some? && 0 <= index ==>
      RxList(next.value) == Some(CompleteModal.RemoveAt(RxList(prev).value, index))
  {
    var copy := RxList(prev);
    if copy.None? {
      return None;
    }
    var list := copy.value;
    var p := SpliceStart(|list|, index);
    if p < |list| {
      list := list[..p] + list[p + 1..];
    }
    var r := CompleteModal.RemoveAt(copy.value, p);
    assert list == r;
    next := Some(WithRx(prev, list));
  }

  /** `list[index] = { ...(list[index] || {}), [key]: value }` on the copied list: inside the list
      this is the form's update; past the end the list grows, the gap read as undefined. */
  function AssignRow(list: seq<Js>, index: nat, key: string, value: Js): (r: seq<Js>)
    ensures index < |list| ==> r == CompleteModal.UpdateAt(list, index, key, value)
    ensures index >= |list| ==>
      |r| == index + 1 && r[..|list|] == list && (forall j :: |list| <= j < index ==> r[j] == Undef) &&
      r[index] == Obj([Field(key, value)])
  {
    var current := if index < |list| then list[index] else Undef;
    var row := With(Or(current, Obj([])), key, value);
    if index < |list| then
      var r := list[index := row];
      assert r == CompleteModal.UpdateAt(list, index, key, value);
      r
    else
      list + seq(index - |list|, _ => Undef) + [row]
  }

  /** `updatePrescription`: one field of row `index` set in a copy of the list. */
  method UpdatePrescription(prev: Js, index: nat, key: string, value: Js) returns (next: Option<Js>)
    ensures next.None? <==> RxList(prev).None?
    ensures next.Some? ==> forall k :: k != "prescriptions" ==> Get(next.value, k) == Get(prev, k)
    ensures next.Some? && index < |RxList(prev).value| ==>
      RxList(next.value) == Some(CompleteModal.UpdateAt(RxList(prev).value, index, key, value))
    ensures next.Some? && index >= |RxList(prev).value| ==> var l := RxList(prev).value;
      RxList(next.value).Some? && var r := RxList(next.value).value;
      |r| == index + 1 && r[..|l|] == l && (forall j :: |l| <= j < index ==> r[j] == Undef) &&
      r[index] == Obj([Field(key, value)])
  {
    var copy := RxList(prev);
    if copy.None? {
      return None;
    }
    var list := AssignRow(copy.value, index, key, value);
    next := Some(WithRx(prev, list));
  }

  // ---------------------------------------------------------------- the blank line

  datatype Shown = Placeholder | Serialized(v: Js) | AsIs(v: Js)

  /** `renderValue`: the blank line for null, undefined, white space and an empty list; other
      objects serialised; anything else as it is. */
  function RenderValue(v: Js): (s: Shown)
    ensures s == Placeholder <==> v == Null || v == Undef || (v.Str? && AllSpace(v.s)) || v == Arr([])
    ensures s.Serialized? <==> s != Placeholder && TypeOf(v) == "object"
    ensures s != Placeholder ==> s.v == v
  {
    assert v.Str? ==> (Trim(v.s) == "" <==> AllSpace(v.s)) by {
      if v.Str? {
        TrimEmptyIff(v.s);
      }
    }
    if v == Null || v == Undef || (TypeOf(v) == "string" && Trim(v.s) == "") || (v.Arr? && |v.items| == 0) then Placeholder
    else if TypeOf(v) == "object" then Serialized(v)
    else AsIs(v)
  }

  /** A text field the completion form would drop as blank is exactly one shown as the blank line. */
  lemma PlaceholderIffBlank(v: Js)
    requires v.Str? || v == Undef || v == Null
    ensures RenderValue(v) == Placeholder <==> CompleteModal.Blank(v)
  {
  }
}
