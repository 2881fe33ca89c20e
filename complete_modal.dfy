/** The doctor's "complete appointment" form (admin/src/components/DoctorCompleteModal.jsx): the
    token a save sends, the row editing of prescriptions and diagnosis codes, the check before a
    save and the payload it posts. Rows are JavaScript values; the uploads are done by the caller
    and arrive as their results. */
module CompleteModal {
  import opened JsValues

  // ---------------------------------------------------------------- token

  /** `localStorage.getItem(k)`: the stored string, or null. */
  function Stored(ls: string -> Option<string>, k: string): (v: Js)
    ensures ls(k).None? ==> v == Null
    ensures ls(k).Some? ==> v == Str(ls(k).value)
  {
    if ls(k).Some? then Str(ls(k).value) else Null
  }

  /** `resolveToken`: the prop when truthy, then the stored `token`, `authToken` and `accessToken`,
      and null when none of them is set. */
  function ResolveToken(authToken: Js, ls: string -> Option<string>): (t: Js)
    ensures FirstTruthy([authToken, Stored(ls, "token"), Stored(ls, "authToken"), Stored(ls, "accessToken")], Null, t)
    ensures Truthy(t) || t == Null
  {
    var rest := [Stored(ls, "token"), Stored(ls, "authToken"), Stored(ls, "accessToken")];
    var all := [authToken] + rest;
    assert all[1..] == rest;
    assert all == [authToken, Stored(ls, "token"), Stored(ls, "authToken"), Stored(ls, "accessToken")];
    if TypeOf(authToken) != "undefined" && Truthy(authToken) then
      assert Chain(all, Null) == authToken;
      authToken
    else
      assert Chain(all, Null) == Chain(rest, Null);
      Chain(rest, Null)
  }

  // ---------------------------------------------------------------- rows

  /** `createEmptyRx()` */
  const EmptyRx: Js := Obj([Field("name", Str("")), Field("form", Str("")), Field("dose", Str("")),
    Field("frequency", Str("")), Field("duration", Str("")), Field("instructions", Str(""))])

  /** The row `addDiagnosisCode` appends. */
  const EmptyCode: Js := Obj([Field("system", Str("ICD-10")), Field("code", Str("")), Field("display", Str(""))])

  /** `[...rows, row]`: the rows kept in front, one new row at the end. */
  function Append(rows: seq<Js>, row: Js): (r: seq<Js>)
    ensures |r| == |rows| + 1 && r[..|rows|] == rows && r[|rows|] == row
  {
    rows + [row]
  }

  function AddPrescription(rows: seq<Js>): seq<Js> {
    Append(rows, EmptyRx)
  }

  function AddDiagnosisCode(codes: seq<Js>): seq<Js> {
    Append(codes, EmptyCode)
  }

  /** `rows.filter((_, i) => i !== index)` from position i on. */
  function KeepOthers(rows: seq<Js>, index: int, i: nat): seq<Js>
    requires i <= |rows|
    decreases |rows| - i
  {
    if i == |rows| then [] else (if i != index then [rows[i]] else []) + KeepOthers(rows, index, i + 1)
  }

  /** From position i on, the filter drops position `index` when it lies ahead, and nothing else. */
  lemma {:induction false} KeepOthersSlices(rows: seq<Js>, index: int, i: nat)
    requires i <= |rows|
    ensures KeepOthers(rows, index, i) == if i <= index < |rows| then rows[i..index] + rows[index + 1..] else rows[i..]
    decreases |rows| - i
  {
    if i < |rows| {
      KeepOthersSlices(rows, index, i + 1);
      if i <= index < |rows| && i != index {
        assert rows[i..index] == [rows[i]] + rows[i + 1..index];
      } else {
        assert rows[i..] == [rows[i]] + rows[i + 1..];
      }
    }
  }

  /** `removePrescription` and `removeDiagnosisCode`: exactly the row at `index` goes, the others
      keep their order; an index outside the list changes nothing. */
  function RemoveAt(rows: seq<Js>, index: int): (r: seq<Js>)
    ensures 0 <= index < |rows| ==> (|r| == |rows| - 1 &&
      (forall j :: 0 <= j < index ==> r[j] == rows[j]) &&
      (forall j :: index <= j < |r| ==> r[j] == rows[j + 1]))
    ensures !(0 <= index < |rows|) ==> r == rows
  {
    KeepOthersSlices(rows, index, 0);
    KeepOthers(rows, index, 0)
  }

  /** `updatePrescription` and `updateDiagnosisCode`: `rows.map((r, i) => i === index ? { ...r, [key]: value } : r)`.
      Only the row at `index` changes, and in it only `key`. */
  function UpdateAt(rows: seq<Js>, index: int, key: string, value: Js): (r: seq<Js>)
    ensures |r| == |rows|
    ensures forall j :: 0 <= j < |rows| && j != index ==> r[j] == rows[j]
    ensures 0 <= index < |rows| ==> (r[index].Obj? && Get(r[index], key) == value &&
      forall k :: k != key ==> Get(r[index], k) == Get(rows[index], k))
  {
    seq(|rows|, i requires 0 <= i < |rows| => if i == index then With(rows[i], key, value) else rows[i])
  }

  /** Writing a key twice keeps the second value only (and the key's first position). */
  lemma {:induction false} PutTwice(fs: seq<Field>, k: string, x: Js, y: Js)
    ensures Put(Put(fs, k, x), k, y) == Put(fs, k, y)
  {
    if fs != [] && fs[0].key != k {
      PutTwice(fs[1..], k, x, y);
      assert Put(fs, k, x)[1..] == Put(fs[1..], k, x);
    }
  }

  /** Editing the same field of the same row twice is the same as editing it once with the last value. */
  lemma UpdateTwice(rows: seq<Js>, index: int, key: string, x: Js, y: Js)
    ensures UpdateAt(UpdateAt(rows, index, key, x), index, key, y) == UpdateAt(rows, index, key, y)
  {
    var once := UpdateAt(rows, index, key, x);
    var twice := UpdateAt(once, index, key, y);
    var direct := UpdateAt(rows, index, key, y);
    if 0 <= index < |rows| {
      var fs := if rows[index].Obj? then rows[index].fields else [];
      PutTwice(fs, key, x, y);
      assert twice[index] == direct[index];
    }
    assert forall j :: 0 <= j < |rows| ==> twice[j] == direct[j];
  }

  /** Adding a row and removing it again restores the list. */
  lemma AddThenRemove(rows: seq<Js>, row: Js)
    ensures RemoveAt(Append(rows, row), |rows|) == rows
  {
    var r := RemoveAt(Append(rows, row), |rows|);
    assert forall j :: 0 <= j < |rows| ==> r[j] == rows[j];
  }

  // ---------------------------------------------------------------- what is sent

  /** A value `?.trim()` can be applied to: a string, or null or undefined, where the call stops. */
  predicate Trimmable(v: Js) {
    v.Str? || v.Undef? || v.Null?
  }

  /** `v?.trim()`: the trimmed string for a string and `undefined` for null or undefined; None for
      any other value (`0`, `false` and other numbers, booleans, objects and arrays), which has no
      `trim` method, so that the call throws a TypeError. */
  function TrimmedOpt(v: Js): (r: Option<Js>)
    ensures r.None? <==> !Trimmable(v)
    ensures v.Str? ==> r == Some(Str(Trim(v.s)))
    ensures v.Undef? || v.Null? ==> r == Some(Undef)
  {
    if v.Str? then Some(Str(Trim(v.s)))
    else if v.Undef? || v.Null? then Some(Undef)
    else None
  }

  /** No text, or white space only. */
  predicate Blank(v: Js) {
    !v.Str? || AllSpace(v.s)
  }

  /** On a string or a missing value, the trimmed form is truthy exactly for a string with
      something other than white space, and then so is the value itself. */
  lemma FilledIff(v: Js)
    requires Trimmable(v)
    ensures Truthy(TrimmedOpt(v).value) <==> !Blank(v)
    ensures Truthy(v) && Truthy(TrimmedOpt(v).value) <==> !Blank(v)
  {
    if v.Str? {
      TrimEmptyIff(v.s);
      assert Truthy(TrimmedOpt(v).value) <==> Trim(v.s) != "";
    }
  }

  /** `p.name && p.name.trim()`: the rows a save keeps are those whose name is not blank. */
  function HasName(p: Js): (b: bool)
    ensures b <==> !Blank(Get(p, "name"))
  {
    var name := Get(p, "name");
    if Trimmable(name) then
      FilledIff(name);
      Truthy(name) && Truthy(TrimmedOpt(name).value)
    else false
  }

  /** When the code filter's callback throws on `c`: a missing row throws at `c.code`; otherwise,
      once `c.code || c.display` is truthy, `c.code?.trim()` throws on a code that is not a string
      nor missing, and `c.display?.trim()`, reached only when the code is blank, throws likewise. */
  predicate CodeThrows(c: Js) {
    c.Undef? || c.Null? ||
    (Truthy(Or(Get(c, "code"), Get(c, "display"))) &&
      (!Trimmable(Get(c, "code")) || (Blank(Get(c, "code")) && !Trimmable(Get(c, "display")))))
  }

  /** `(c.code || c.display) && (c.code?.trim() || c.display?.trim())`, None when it throws: a code
      that does not throw is kept exactly when its code or its display is not blank. */
  function KeepCode(c: Js): (r: Option<bool>)
    ensures r.None? <==> CodeThrows(c)
    ensures r.Some? ==> (r.value <==> !Blank(Get(c, "code")) || !Blank(Get(c, "display")))
  {
    if c.Undef? || c.Null? then None
    else
      var code := Get(c, "code");
      var display := Get(c, "display");
      if !Truthy(Or(code, display)) then Some(false)
      else if !Trimmable(code) then None
      else
        FilledIff(code);
        if Truthy(TrimmedOpt(code).value) then Some(true)
        else if !Trimmable(display) then None
        else
          FilledIff(display);
          Some(Truthy(TrimmedOpt(display).value))
  }

  /** `hr ? Number(hr) : null` as it is sent: an empty field is null, a number stays itself, and a
      value that is not a number (NaN) is serialised as null. */
  function HrSent(hr: Js): (r: Js)
    ensures r == Null || r.Num?
    ensures !Truthy(hr) ==> r == Null
    ensures Truthy(hr) && ToNumber(hr).Some? ==> r == Num(ToNumber(hr).value)
  {
    if !Truthy(hr) then Null
    else
      var n := ToNumber(hr);
      if n.Some? then Num(n.value) else Null
  }

  /** The editable state of the form. */
  datatype Form = Form(text: Js, codes: seq<Js>, rows: seq<Js>, notes: Js, bp: Js, hr: Js)

  /** The diagnosis codes a save sends: those with a code or a display, in their order; None when
      the filter's callback throws on one of them, which aborts the save. */
  function KeptCodes(form: Form): (cs: Option<seq<Js>>)
    ensures cs.None? <==> exists c :: c in form.codes && CodeThrows(c)
    ensures cs.Some? ==> IsSubseq(cs.value, form.codes)
    ensures cs.Some? ==> forall c :: c in cs.value <==> c in form.codes && (!Blank(Get(c, "code")) || !Blank(Get(c, "display")))
  {
    FilterCodes(form.codes)
  }

  /** `codes.filter(...)` with the callback KeepCode, which may throw. */
  function FilterCodes(codes: seq<Js>): (cs: Option<seq<Js>>)
    ensures cs.None? <==> exists c :: c in codes && CodeThrows(c)
    ensures cs.Some? ==> IsSubseq(cs.value, codes)
    ensures cs.Some? ==> forall c :: c in cs.value <==> c in codes && (!Blank(Get(c, "code")) || !Blank(Get(c, "display")))
  {
    if codes == [] then Some([])
    else
      assert forall x :: x in codes <==> x == codes[0] || x in codes[1..];
      var keep := KeepCode(codes[0]);
      var rest := FilterCodes(codes[1..]);
      if keep.None? || rest.None? then None
      else if keep.value then
        assert ([codes[0]] + rest.value)[1..] == rest.value;
        Some([codes[0]] + rest.value)
      else rest
  }

  /** The prescriptions a save sends: those with a name that is not blank, in their order. */
  function KeptRows(form: Form): (rs: seq<Js>)
    ensures IsSubseq(rs, form.rows)
    ensures forall x :: x in rs <==> x in form.rows && !Blank(Get(x, "name"))
  {
    Filter(form.rows, HasName)
  }

  /** The finish request's body with its parts computed. */
  function Body(text: Js, codes: seq<Js>, rows: seq<Js>, notes: Js, bp: Js, hr: Js, uploaded: seq<Js>): Js {
    Obj([
      Field("diagnosis", Obj([Field("text", text), Field("codes", Arr(codes))])),
      Field("prescriptions", Arr(rows)),
      Field("doctorNotes", notes),
      Field("vitals", Obj([Field("bp", bp), Field("hr", hr)])),
      Field("attachments", Arr(uploaded))])
  }

  /** Each part of the body is found under its own key. */
  lemma BodyFields(text: Js, codes: seq<Js>, rows: seq<Js>, notes: Js, bp: Js, hr: Js, uploaded: seq<Js>)
    ensures var b := Body(text, codes, rows, notes, bp, hr, uploaded);
      Get(Get(b, "diagnosis"), "text") == text && Get(Get(b, "diagnosis"), "codes") == Arr(codes) &&
      Get(b, "prescriptions") == Arr(rows) && Get(b, "doctorNotes") == notes &&
      Get(Get(b, "vitals"), "bp") == bp && Get(Get(b, "vitals"), "hr") == hr &&
      Get(b, "attachments") == Arr(uploaded)
  {
    var fs := Body(text, codes, rows, notes, bp, hr, uploaded).fields;
    LookupAt(fs[0].val.fields, 1, "codes");
    LookupAt(fs[3].val.fields, 1, "hr");
    LookupAt(fs, 1, "prescriptions");
    LookupAt(fs, 2, "doctorNotes");
    LookupAt(fs, 3, "vitals");
    LookupAt(fs, 4, "attachments");
  }

  /** The body of the finish request; None when building it throws in the code filter. */
  function Payload(form: Form, uploaded: seq<Js>): Option<Js> {
    var codes := KeptCodes(form);
    if codes.None? then None
    else Some(Body(form.text, codes.value, KeptRows(form), form.notes, form.bp, HrSent(form.hr), uploaded))
  }

  /** What the finish request carries, field by field. */
  lemma PayloadFields(form: Form, uploaded: seq<Js>)
    ensures Payload(form, uploaded).None? <==> KeptCodes(form).None?
    ensures Payload(form, uploaded).Some? ==> var b := Payload(form, uploaded).value;
      Get(Get(b, "diagnosis"), "text") == form.text &&
      Get(Get(b, "diagnosis"), "codes") == Arr(KeptCodes(form).value) &&
      Get(b, "prescriptions") == Arr(KeptRows(form)) &&
      Get(b, "doctorNotes") == form.notes &&
      Get(Get(b, "vitals"), "bp") == form.bp &&
      Get(Get(b, "vitals"), "hr") == HrSent(form.hr) &&
      Get(b, "attachments") == Arr(uploaded)
  {
    if KeptCodes(form).Some? {
      BodyFields(form.text, KeptCodes(form).value, KeptRows(form), form.notes, form.bp, HrSent(form.hr), uploaded);
    }
  }

  /** The check before a save, as written: refused when the diagnosis text is empty and no row
      has a name. */
  predicate RefusedAsWritten(form: Form) {
    !Truthy(form.text) && forall i :: 0 <= i < |form.rows| ==> !Truthy(Get(form.rows[i], "name"))
  }

  /** The check the payload filter calls for: refused when the diagnosis text is blank and no row
      has a name that is not blank. */
  predicate Refused(form: Form) {
    Blank(form.text) && forall i :: 0 <= i < |form.rows| ==> !HasName(form.rows[i])
  }

  /** As written, a row whose name is only white space lets an empty form through, and then the
      payload carries neither a diagnosis text nor a prescription. */
  lemma BlankNameSlipsThrough(name: string, uploaded: seq<Js>)
    requires name != "" && AllSpace(name)
    ensures var form := Form(Str(""), [], [Obj([Field("name", Str(name))])], Str(""), Str(""), Str(""));
      !RefusedAsWritten(form) && Refused(form) && form.text == Str("") && KeptRows(form) == []
  {
    var row := Obj([Field("name", Str(name))]);
    var form := Form(Str(""), [], [row], Str(""), Str(""), Str(""));
    assert Get(row, "name") == Str(name);
    assert !HasName(row);
    var kept := KeptRows(form);
    assert forall x :: x in kept ==> x == row;
  }

  /** A form that passes the check sends a diagnosis text or at least one prescription. */
  lemma AcceptedSendsSomething(form: Form)
    requires !Refused(form)
    ensures !Blank(form.text) || |KeptRows(form)| > 0
  {
    if Blank(form.text) {
      var i :| 0 <= i < |form.rows| && HasName(form.rows[i]);
      var x := form.rows[i];
      assert x in form.rows && !Blank(Get(x, "name"));
      assert x in KeptRows(form);
    }
  }

  /** The refused form is exactly the one that would send a blank text and no prescription. */
  lemma RefusedIffEmptyPayload(form: Form)
    ensures Refused(form) <==> (Blank(form.text) && KeptRows(form) == [])
  {
    if !Refused(form) {
      AcceptedSendsSomething(form);
    } else {
      FilterNone(form.rows, HasName);
    }
  }

  /** How a save ends before the response: refused by the check, failed with a message of its own,
      failed with the TypeError the code filter throws (whose message is the engine's), or posted. */
  datatype SaveOutcome = Refuse(error: string) | Fail(error: string) | Thrown | Post(token: Js, body: Js)

  /** `handleSave` up to the finish request, as written: the check of line 141, the token, the
      appointment id, then the payload with the attachments the uploads returned, whose code filter
      may throw into the catch that shows the error. */
  function HandleSave(form: Form, authToken: Js, ls: string -> Option<string>, appointmentId: Js, uploaded: seq<Js>): (o: SaveOutcome)
    ensures o.Refuse? <==> RefusedAsWritten(form)
    ensures o.Refuse? ==> o.error == "Please enter a diagnosis or at least one prescription."
    ensures o == Fail("Missing auth token") <==> !RefusedAsWritten(form) && !Truthy(ResolveToken(authToken, ls))
    ensures o == Fail("Missing appointment id") <==>
      !RefusedAsWritten(form) && Truthy(ResolveToken(authToken, ls)) && !Truthy(appointmentId)
    ensures o.Thrown? <==> (!RefusedAsWritten(form) && Truthy(ResolveToken(authToken, ls)) && Truthy(appointmentId) &&
      exists c :: c in form.codes && CodeThrows(c))
    ensures o.Post? <==> (!RefusedAsWritten(form) && Truthy(ResolveToken(authToken, ls)) && Truthy(appointmentId) &&
      forall c :: c in form.codes ==> !CodeThrows(c))
    ensures o.Post? ==> o.token == ResolveToken(authToken, ls) && Some(o.body) == Payload(form, uploaded)
  {
    Save(RefusedAsWritten(form), form, authToken, ls, appointmentId, uploaded)
  }

  /** `handleSave` with the check the payload filter calls for (see RefusedIffEmptyPayload): a
      posted body always carries a diagnosis text or a prescription. */
  function HandleSaveCorrected(form: Form, authToken: Js, ls: string -> Option<string>, appointmentId: Js, uploaded: seq<Js>): (o: SaveOutcome)
    ensures o.Refuse? <==> Refused(form)
    ensures o.Thrown? <==> (!Refused(form) && Truthy(ResolveToken(authToken, ls)) && Truthy(appointmentId) &&
      exists c :: c in form.codes && CodeThrows(c))
    ensures o.Post? <==> (!Refused(form) && Truthy(ResolveToken(authToken, ls)) && Truthy(appointmentId) &&
      forall c :: c in form.codes ==> !CodeThrows(c))
    ensures o.Post? ==> o.token == ResolveToken(authToken, ls) && Some(o.body) == Payload(form, uploaded)
    ensures o.Post? ==> !Blank(form.text) || |KeptRows(form)| > 0
  {
    if Refused(form) then Save(true, form, authToken, ls, appointmentId, uploaded)
    else
      AcceptedSendsSomething(form);
      Save(false, form, authToken, ls, appointmentId, uploaded)
  }

  /** The steps after the check. */
  function Save(refused: bool, form: Form, authToken: Js, ls: string -> Option<string>, appointmentId: Js, uploaded: seq<Js>): SaveOutcome {
    if refused then Refuse("Please enter a diagnosis or at least one prescription.")
    else
      var token := ResolveToken(authToken, ls);
      if !Truthy(token) then Fail("Missing auth token")
      else if !Truthy(appointmentId) then Fail("Missing appointment id")
      else
        var body := Payload(form, uploaded);
        if body.None? then Thrown else Post(token, body.value)
  }

  /** As written, a form with an empty diagnosis and one row named only with white space is posted,
      and its body carries no diagnosis text and no prescription; the corrected handler refuses it. */
  lemma AsWrittenPostsEmptyForm(name: string, token: string, ls: string -> Option<string>, id: string)
    requires name != "" && AllSpace(name) && token != "" && id != ""
    ensures var form := Form(Str(""), [], [Obj([Field("name", Str(name))])], Str(""), Str(""), Str(""));
      var o := HandleSave(form, Str(token), ls, Str(id), []);
      o.Post? && Get(Get(o.body, "diagnosis"), "text") == Str("") && Get(o.body, "prescriptions") == Arr([]) &&
      HandleSaveCorrected(form, Str(token), ls, Str(id), []).Refuse?
  {
    var form := Form(Str(""), [], [Obj([Field("name", Str(name))])], Str(""), Str(""), Str(""));
    BlankNameSlipsThrough(name, []);
    assert ResolveToken(Str(token), ls) == Str(token);
    SaveOfPassingForm(form, Str(token), ls, Str(id), []);
  }

  /** A form the check lets through, with a token and an id, and whose codes are all empty: the
      as-written save posts a body with its text and its kept rows; the corrected one refuses it
      when the check it calls for does. */
  lemma SaveOfPassingForm(form: Form, authToken: Js, ls: string -> Option<string>, appointmentId: Js, uploaded: seq<Js>)
    requires !RefusedAsWritten(form) && form.codes == []
    requires Truthy(ResolveToken(authToken, ls)) && Truthy(appointmentId)
    ensures var o := HandleSave(form, authToken, ls, appointmentId, uploaded);
      o.Post? && Get(Get(o.body, "diagnosis"), "text") == form.text && Get(o.body, "prescriptions") == Arr(KeptRows(form))
    ensures Refused(form) ==> HandleSaveCorrected(form, authToken, ls, appointmentId, uploaded).Refuse?
  {
    assert KeptCodes(form) == Some([]);
    PayloadFields(form, uploaded);
  }

  /** A diagnosis code whose `code` is the number 0 and whose display is text throws in the code
      filter, since `0` is falsy but not null, so `0?.trim()` is called; a save of a form holding
      it never posts. */
  lemma ZeroCodeThrows(form: Form, authToken: Js, ls: string -> Option<string>, appointmentId: Js, uploaded: seq<Js>)
    requires Obj([Field("code", Num(0.0)), Field("display", Str("x"))]) in form.codes
    ensures KeepCode(Obj([Field("code", Num(0.0)), Field("display", Str("x"))])).None?
    ensures !HandleSave(form, authToken, ls, appointmentId, uploaded).Post?
    ensures !HandleSaveCorrected(form, authToken, ls, appointmentId, uploaded).Post?
  {
    var c := Obj([Field("code", Num(0.0)), Field("display", Str("x"))]);
    LookupAt(c.fields, 1, "display");
    assert Get(c, "code") == Num(0.0);
    assert Truthy(Or(Get(c, "code"), Get(c, "display")));
    assert CodeThrows(c);
  }

  /** A numeral typed as the heart rate is sent as its number. */
  lemma HrOfNumeral(n: nat)
    ensures HrSent(Str(NatToDecimal(n))) == Num(n as real)
  {
    NumeralNumber(n);
    assert Truthy(Str(NatToDecimal(n)));
  }
}
