/** The medical-record controller (backend/controllers/medicalRecordController.js): normalising the
    attachments and prescriptions a doctor submits, merging attachments without duplicates,
    finalising an appointment, the read-access rule and attachment removal.
    Request bodies arrive already parsed: `tryParseMaybeString` is not part of this model. */
module MedicalRecords {
  import opened JsValues
  import opened Appointments

  // ---------------------------------------------------------------- attachment normalisation

  /** Keys that are mapped onto the normalised attachment and therefore kept out of `meta`. */
  const ReservedKeys: seq<string> := [
    "url", "path", "file", "filename", "name", "fileName", "original_filename", "type", "mimeType",
    "resource_type", "format", "contentType", "uploadedBy", "uploadedAt", "fileId", "_id", "id",
    "public_id", "file_id"]

  predicate Reserved(k: string) {
    k in ReservedKeys
  }

  function FieldsOf(a: Js): seq<Field> {
    if a.Obj? then a.fields else []
  }

  /** The own properties of an attachment object whose keys are not reserved, in key order. */
  function MetaFields(fs: seq<Field>): (m: seq<Field>)
    ensures forall x :: x in m <==> x in fs && !Reserved(x.key)
    ensures |m| <= |fs|
  {
    if fs == [] then []
    else
      var last := fs[|fs| - 1];
      assert fs == fs[..|fs| - 1] + [last];
      MetaFields(fs[..|fs| - 1]) + (if !Reserved(last.key) then [last] else [])
  }

  predicate UniqueKeys(fs: seq<Field>) {
    forall i, j :: 0 <= i < j < |fs| ==> fs[i].key != fs[j].key
  }

  lemma {:induction false} LookupUnique(fs: seq<Field>, i: int)
    requires UniqueKeys(fs) && 0 <= i < |fs|
    ensures Lookup(fs, fs[i].key) == fs[i].val
  {
    if i > 0 {
      assert fs[0].key != fs[i].key;
      assert fs[1..][i - 1] == fs[i];
      assert UniqueKeys(fs[1..]) by {
        forall a, b | 0 <= a < b < |fs[1..]| ensures fs[1..][a].key != fs[1..][b].key {
          assert fs[1..][a] == fs[a + 1] && fs[1..][b] == fs[b + 1];
        }
      }
      LookupUnique(fs[1..], i - 1);
    }
  }

  /** The key of field i has not been copied by the time the loop reaches it. */
  lemma KeyNotCollected(fs: seq<Field>, i: int)
    requires UniqueKeys(fs) && 0 <= i < |fs|
    ensures fs[i].key !in Keys(MetaFields(fs[..i]))
  {
  }

  /** Extending the scanned prefix by field i adds exactly that field when its key is not reserved. */
  lemma MetaStep(fs: seq<Field>, i: int)
    requires 0 <= i < |fs|
    ensures MetaFields(fs[..i + 1]) == MetaFields(fs[..i]) + (if !Reserved(fs[i].key) then [fs[i]] else [])
  {
    var pre := fs[..i + 1];
    assert pre[..|pre| - 1] == fs[..i] && pre[|pre| - 1] == fs[i];
  }

  /** The `meta` loop: copies every non-reserved own property of `a`, in key order. */
  method CollectMeta(a: Js) returns (meta: seq<Field>)
    ensures UniqueKeys(FieldsOf(a)) ==> meta == MetaFields(FieldsOf(a))
  {
    var fs := FieldsOf(a);
    var ks := Keys(fs);
    meta := [];
    var i := 0;
    while i < |ks|
      invariant 0 <= i <= |ks|
      invariant UniqueKeys(fs) ==> meta == MetaFields(fs[..i])
    {
      MetaStep(fs, i);
      if !Reserved(ks[i]) {
        if UniqueKeys(fs) {
          KeyNotCollected(fs, i);
          LookupUnique(fs, i);
          assert Field(fs[i].key, Get(a, ks[i])) == fs[i];
        }
        meta := Put(meta, ks[i], Get(a, ks[i]));
      }
      i := i + 1;
    }
    assert fs[..i] == fs;
  }

  /** The object a plain string attachment becomes. */
  function StringAttachment(s: string, uploaderId: Js): Js {
    Obj([Field("url", Str(s)), Field("filename", Undef), Field("type", Undef),
         Field("uploadedBy", uploaderId), Field("uploadedAt", Date(None)), Field("fileId", Undef)])
  }

  function UrlCandidates(a: Js): seq<Js> {
    [Get(a, "url"), Get(a, "path"), Get(a, "file")]
  }

  function FilenameCandidates(a: Js): seq<Js> {
    [Get(a, "filename"), Get(a, "name"), Get(a, "fileName"), Get(a, "original_filename")]
  }

  function TypeCandidates(a: Js): seq<Js> {
    [Get(a, "type"), Get(a, "mimeType"), Get(a, "resource_type"), Get(a, "format"), Get(a, "contentType")]
  }

  function FileIdCandidates(a: Js): seq<Js> {
    [Get(a, "fileId"), Get(a, "_id"), Get(a, "id"), Get(a, "public_id"), Get(a, "file_id")]
  }

  /** The `map` callback of `normalizeAttachments`: null for a falsy entry, a url-only record for a
      string, and for anything else the first present alternative of each field. */
  function NormalizeAttachment(a: Js, uploaderId: Js): (r: Js)
    ensures !Truthy(a) ==> r == Null
    ensures Truthy(a) && a.Str? ==> r == StringAttachment(a.s, uploaderId)
    ensures Truthy(a) && !a.Str? ==>
      r.Obj? &&
      FirstTruthy(UrlCandidates(a), Null, Get(r, "url")) &&
      FirstTruthy(FilenameCandidates(a), Undef, Get(r, "filename")) &&
      FirstTruthy(TypeCandidates(a), Undef, Get(r, "type")) &&
      FirstTruthy([Get(a, "uploadedBy"), uploaderId], Undef, Get(r, "uploadedBy")) &&
      FirstTruthy(FileIdCandidates(a), Undef, Get(r, "fileId")) &&
      Get(r, "uploadedAt") == (if Truthy(Get(a, "uploadedAt")) then Date(Some(Get(a, "uploadedAt"))) else Date(None))
    ensures Truthy(a) && !a.Str? ==>
      (Get(r, "meta") == Undef <==> MetaFields(FieldsOf(a)) == []) &&
      (MetaFields(FieldsOf(a)) != [] ==> Get(r, "meta") == Obj(MetaFields(FieldsOf(a))))
  {
    if !Truthy(a) then Null
    else if a.Str? then StringAttachment(a.s, uploaderId)
    else
      var url := Chain(UrlCandidates(a), Null);
      var filename := Chain(FilenameCandidates(a), Undef);
      var typ := Chain(TypeCandidates(a), Undef);
      var uploadedBy := Chain([Get(a, "uploadedBy"), uploaderId], Undef);
      var uploadedAt := if Truthy(Get(a, "uploadedAt")) then Date(Some(Get(a, "uploadedAt"))) else Date(None);
      var fileId := Chain(FileIdCandidates(a), Undef);
      Obj(AttachmentFields(url, filename, typ, uploadedBy, uploadedAt, fileId, MetaFields(FieldsOf(a))))
  }

  /** The normalised attachment object `{ url, filename, type, uploadedBy, uploadedAt, fileId }`. */
  function BaseFields(url: Js, filename: Js, typ: Js, uploadedBy: Js, uploadedAt: Js, fileId: Js): (fs: seq<Field>)
    ensures Lookup(fs, "url") == url && Lookup(fs, "filename") == filename && Lookup(fs, "type") == typ
    ensures Lookup(fs, "uploadedBy") == uploadedBy && Lookup(fs, "uploadedAt") == uploadedAt && Lookup(fs, "fileId") == fileId
    ensures Lookup(fs, "meta") == Undef
  {
    var fs := [Field("url", url), Field("filename", filename), Field("type", typ),
               Field("uploadedBy", uploadedBy), Field("uploadedAt", uploadedAt), Field("fileId", fileId)];
    LookupAt(fs, 1, "filename");
    LookupAt(fs, 2, "type");
    LookupAt(fs, 3, "uploadedBy");
    LookupAt(fs, 4, "uploadedAt");
    LookupAt(fs, 5, "fileId");
    assert "type"[0] != "meta"[0];
    LookupFacts(fs, "meta");
    fs
  }

  /** The base object, with `meta` added when it is non-empty. */
  function AttachmentFields(url: Js, filename: Js, typ: Js, uploadedBy: Js, uploadedAt: Js, fileId: Js, meta: seq<Field>)
    : (fs: seq<Field>)
    ensures Lookup(fs, "url") == url && Lookup(fs, "filename") == filename && Lookup(fs, "type") == typ
    ensures Lookup(fs, "uploadedBy") == uploadedBy && Lookup(fs, "uploadedAt") == uploadedAt && Lookup(fs, "fileId") == fileId
    ensures meta == [] ==> Lookup(fs, "meta") == Undef
    ensures meta != [] ==> Lookup(fs, "meta") == Obj(meta)
  {
    if meta == [] then BaseFields(url, filename, typ, uploadedBy, uploadedAt, fileId)
    else
      var fs := [Field("url", url), Field("filename", filename), Field("type", typ),
                 Field("uploadedBy", uploadedBy), Field("uploadedAt", uploadedAt), Field("fileId", fileId),
                 Field("meta", Obj(meta))];
      LookupAt(fs, 1, "filename");
      LookupAt(fs, 2, "type");
      LookupAt(fs, 3, "uploadedBy");
      LookupAt(fs, 4, "uploadedAt");
      LookupAt(fs, 5, "fileId");
      assert "type"[0] != "meta"[0];
      LookupAt(fs, 6, "meta");
      fs
  }

  /** The list the `map` runs over: an array as is, a lone object or non-blank string as a
      one-element list, anything else as the empty list. */
  function AttachmentInputs(raw: Js): seq<Js> {
    if raw.Arr? then raw.items
    else if Truthy(raw) && TypeOf(raw) == "object" then [raw]
    else if raw.Str? && Trim(raw.s) != "" then [raw]
    else []
  }

  predicate KeptAttachment(x: Js) {
    Truthy(x) && Truthy(Get(x, "url"))
  }

  /** `map(NormalizeAttachment).filter((x) => x && x.url)` */
  function NormalizeList(l: seq<Js>, uploaderId: Js): (r: seq<Js>)
    ensures |r| <= |l|
    ensures forall i :: 0 <= i < |r| ==> r[i].Obj? && Truthy(Get(r[i], "url"))
    ensures forall y :: y in r <==> exists x :: x in l && y == NormalizeAttachment(x, uploaderId) && KeptAttachment(y)
  {
    if l == [] then []
    else
      var x := NormalizeAttachment(l[0], uploaderId);
      var rest := NormalizeList(l[1..], uploaderId);
      assert forall z :: z in l <==> z == l[0] || z in l[1..];
      (if KeptAttachment(x) then [x] else []) + rest
  }

  function NormalizeAttachments(raw: Js, uploaderId: Js): (r: seq<Js>)
    ensures forall i :: 0 <= i < |r| ==> r[i].Obj? && Truthy(Get(r[i], "url"))
  {
    NormalizeList(AttachmentInputs(raw), uploaderId)
  }

  /** The accepted input shapes: an array element by element, a lone object as a one-element list,
      and nothing from a value that is neither an object nor a non-blank string. */
  lemma AttachmentShapes(raw: Js, uploaderId: Js)
    ensures raw.Arr? ==> NormalizeAttachments(raw, uploaderId) == NormalizeList(raw.items, uploaderId)
    ensures !raw.Arr? && Truthy(raw) && TypeOf(raw) == "object" ==>
      NormalizeAttachments(raw, uploaderId) == NormalizeList([raw], uploaderId) && |NormalizeAttachments(raw, uploaderId)| <= 1
    ensures !raw.Arr? && !(Truthy(raw) && TypeOf(raw) == "object") && !(raw.Str? && Trim(raw.s) != "") ==>
      NormalizeAttachments(raw, uploaderId) == []
  {
  }

  /** A non-blank string is one attachment whose url is that string. */
  lemma StringAttachmentShape(raw: Js, uploaderId: Js)
    requires raw.Str? && Trim(raw.s) != ""
    ensures NormalizeAttachments(raw, uploaderId) == [StringAttachment(raw.s, uploaderId)]
  {
    StringInput(raw);
    StringKept(raw.s, uploaderId);
    SingleList(raw, uploaderId);
  }

  lemma StringInput(raw: Js)
    requires raw.Str? && Trim(raw.s) != ""
    ensures raw.s != "" && AttachmentInputs(raw) == [raw]
  {
  }

  lemma StringKept(s: string, uploaderId: Js)
    requires s != ""
    ensures NormalizeAttachment(Str(s), uploaderId) == StringAttachment(s, uploaderId)
    ensures KeptAttachment(StringAttachment(s, uploaderId))
  {
    assert Get(StringAttachment(s, uploaderId), "url") == Str(s);
  }

  /** A one-element list normalises to its normalised element when that is kept. */
  lemma SingleList(x: Js, uploaderId: Js)
    ensures NormalizeList([x], uploaderId) ==
      if KeptAttachment(NormalizeAttachment(x, uploaderId)) then [NormalizeAttachment(x, uploaderId)] else []
  {
    assert [x][1..] == [];
  }

  /** `map` then `filter` works element by element: the list of a concatenation is the concatenation
      of the lists. With SingleList this fixes the order and the multiplicity of every kept entry. */
  lemma {:induction false} NormalizeListAppend(a: seq<Js>, b: seq<Js>, uploaderId: Js)
    ensures NormalizeList(a + b, uploaderId) == NormalizeList(a, uploaderId) + NormalizeList(b, uploaderId)
  {
    if a == [] {
      assert a + b == b;
    } else {
      assert (a + b)[0] == a[0];
      assert (a + b)[1..] == a[1..] + b;
      NormalizeListAppend(a[1..], b, uploaderId);
    }
  }

  /** Entry k of the list is the normalised input at the k-th kept position, so the kept entries
      come in input order, once per input. */
  lemma {:induction false} NormalizeListAt(l: seq<Js>, uploaderId: Js, i: nat)
    requires i < |l|
    ensures var before := NormalizeList(l[..i], uploaderId);
            var x := NormalizeAttachment(l[i], uploaderId);
            KeptAttachment(x) ==> |before| < |NormalizeList(l, uploaderId)| && NormalizeList(l, uploaderId)[|before|] == x
  {
    assert l == l[..i] + ([l[i]] + l[i + 1..]);
    NormalizeListAppend(l[..i], [l[i]] + l[i + 1..], uploaderId);
    NormalizeListAppend([l[i]], l[i + 1..], uploaderId);
    SingleList(l[i], uploaderId);
  }

  // ---------------------------------------------------------------- prescription normalisation

  function PrescriptionInputs(raw: Js): seq<Js> {
    if raw.Arr? then raw.items
    else if Truthy(raw) && TypeOf(raw) == "object" then [raw]
    else []
  }

  /** `p[k] || undefined`: a falsy optional field is dropped. */
  predicate KeepsOptional(p: Js, r: Js, k: string) {
    Get(r, k) == if Truthy(Get(p, k)) then Get(p, k) else Undef
  }

  /** The normalised prescription object of a prescription object `p`. */
  function PrescriptionFields(name: Js, p: Js, createdAt: Js): (fs: seq<Field>)
    ensures Lookup(fs, "name") == name && Lookup(fs, "createdAt") == createdAt
    ensures KeepsOptional(p, Obj(fs), "form") && KeepsOptional(p, Obj(fs), "dose")
    ensures KeepsOptional(p, Obj(fs), "frequency") && KeepsOptional(p, Obj(fs), "duration")
    ensures KeepsOptional(p, Obj(fs), "instructions") && KeepsOptional(p, Obj(fs), "prescribedBy")
  {
    var fs := [Field("name", name),
               Field("form", Or(Get(p, "form"), Undef)),
               Field("dose", Or(Get(p, "dose"), Undef)),
               Field("frequency", Or(Get(p, "frequency"), Undef)),
               Field("duration", Or(Get(p, "duration"), Undef)),
               Field("instructions", Or(Get(p, "instructions"), Undef)),
               Field("prescribedBy", Or(Get(p, "prescribedBy"), Undef)),
               Field("createdAt", createdAt)];
    LookupAt(fs, 1, "form");
    LookupAt(fs, 2, "dose");
    LookupAt(fs, 3, "frequency");
    LookupAt(fs, 4, "duration");
    LookupAt(fs, 5, "instructions");
    LookupAt(fs, 6, "prescribedBy");
    LookupAt(fs, 7, "createdAt");
    fs
  }

  /** The `map` callback of `normalizePrescriptions`. */
  function NormalizePrescription(p: Js): (r: Js)
    ensures !Truthy(p) <==> r == Null
    ensures Truthy(p) ==> r.Obj? && Get(r, "createdAt").Date?
    ensures Truthy(p) && p.Str? ==> r == Obj([Field("name", p), Field("createdAt", Date(None))])
    ensures Truthy(p) && !p.Str? ==>
      Get(r, "name") == (if Truthy(Get(p, "name")) then Get(p, "name") else Str("")) &&
      KeepsOptional(p, r, "form") && KeepsOptional(p, r, "dose") && KeepsOptional(p, r, "frequency") &&
      KeepsOptional(p, r, "duration") && KeepsOptional(p, r, "instructions") && KeepsOptional(p, r, "prescribedBy")
  {
    if !Truthy(p) then Null
    else if p.Str? then
      var fs := [Field("name", p), Field("createdAt", Date(None))];
      LookupAt(fs, 1, "createdAt");
      Obj(fs)
    else
      var createdAt := if Truthy(Get(p, "createdAt")) then Date(Some(Get(p, "createdAt"))) else Date(None);
      Obj(PrescriptionFields(Or(Get(p, "name"), Str("")), p, createdAt))
  }

  /** `map(NormalizePrescription).filter(Boolean)` */
  function NormalizePrescriptionList(l: seq<Js>): (r: seq<Js>)
    ensures |r| <= |l|
    ensures forall i :: 0 <= i < |r| ==> r[i].Obj?
    ensures forall y :: y in r <==> exists p :: p in l && Truthy(p) && y == NormalizePrescription(p)
  {
    if l == [] then []
    else
      var rest := NormalizePrescriptionList(l[1..]);
      assert forall z :: z in l <==> z == l[0] || z in l[1..];
      (if Truthy(l[0]) then [NormalizePrescription(l[0])] else []) + rest
  }

  /** The prescription list of a concatenation is the concatenation of the lists. */
  lemma {:induction false} PrescriptionListAppend(a: seq<Js>, b: seq<Js>)
    ensures NormalizePrescriptionList(a + b) == NormalizePrescriptionList(a) + NormalizePrescriptionList(b)
  {
    if a == [] {
      assert a + b == b;
    } else {
      assert (a + b)[0] == a[0];
      assert (a + b)[1..] == a[1..] + b;
      PrescriptionListAppend(a[1..], b);
    }
  }

  /** A one-element list gives its normalised prescription when it is truthy, and nothing otherwise. */
  lemma PrescriptionListSingle(p: Js)
    ensures NormalizePrescriptionList([p]) == if Truthy(p) then [NormalizePrescription(p)] else []
  {
    assert [p][1..] == [];
  }

  /** Entry k of the list is the normalised input at the k-th truthy position, so the entries come in
      input order, once per truthy input. */
  lemma {:induction false} PrescriptionListAt(l: seq<Js>, i: nat)
    requires i < |l| && Truthy(l[i])
    ensures var before := NormalizePrescriptionList(l[..i]);
            |before| < |NormalizePrescriptionList(l)| && NormalizePrescriptionList(l)[|before|] == NormalizePrescription(l[i])
  {
    assert l == l[..i] + ([l[i]] + l[i + 1..]);
    PrescriptionListAppend(l[..i], [l[i]] + l[i + 1..]);
    PrescriptionListAppend([l[i]], l[i + 1..]);
    PrescriptionListSingle(l[i]);
  }

  function NormalizePrescriptions(raw: Js): (r: seq<Js>)
    ensures forall i :: 0 <= i < |r| ==> r[i].Obj?
    ensures !raw.Arr? && !(Truthy(raw) && TypeOf(raw) == "object") ==> r == []
  {
    NormalizePrescriptionList(PrescriptionInputs(raw))
  }

  // ---------------------------------------------------------------- merging attachments

  /** An already merged attachment `ea` duplicates the new one `na` when both carry the same
      file id, or both carry the same url. */
  predicate Dup(ea: Js, na: Js, f: Formatters) {
    (Truthy(Get(na, "fileId")) && Truthy(Get(ea, "fileId")) && ToStr(Get(ea, "fileId"), f) == ToStr(Get(na, "fileId"), f)) ||
    (Truthy(Get(ea, "url")) && Truthy(Get(na, "url")) && StrictEq(Get(ea, "url"), Get(na, "url")))
  }

  /** Being a duplicate does not depend on which of the two is the new one. */
  lemma DupSymmetric(ea: Js, na: Js, f: Formatters)
    ensures Dup(ea, na, f) <==> Dup(na, ea, f)
  {
  }

  predicate HasDup(m: seq<Js>, na: Js, f: Formatters) {
    exists i :: 0 <= i < |m| && Dup(m[i], na, f)
  }

  /** The merged list after the new attachments `incoming` have been considered in order. */
  function Merge(existing: seq<Js>, incoming: seq<Js>, f: Formatters): seq<Js>
    decreases |incoming|
  {
    if incoming == [] then existing
    else
      var m := Merge(existing, incoming[..|incoming| - 1], f);
      var na := incoming[|incoming| - 1];
      if HasDup(m, na, f) then m else m + [na]
  }

  /** The dedupe loop: `merged` starts as a copy of the existing list and each new attachment
      without a duplicate is pushed. */
  method MergeAttachments(existing: seq<Js>, incoming: seq<Js>, f: Formatters) returns (merged: seq<Js>)
    ensures merged == Merge(existing, incoming, f)
  {
    merged := existing;
    for i := 0 to |incoming|
      invariant merged == Merge(existing, incoming[..i], f)
    {
      var na := incoming[i];
      assert incoming[..i + 1][..i] == incoming[..i];
      var dup := exists j :: 0 <= j < |merged| && Dup(merged[j], na, f);
      if !dup {
        merged := merged + [na];
      }
    }
    assert incoming[..|incoming|] == incoming;
  }

  /** The existing attachments stay an in-order prefix, and each appended entry is a new
      attachment that no entry before it duplicates. */
  lemma {:induction false} MergeShape(existing: seq<Js>, incoming: seq<Js>, f: Formatters)
    ensures existing <= Merge(existing, incoming, f)
    ensures |Merge(existing, incoming, f)| <= |existing| + |incoming|
    ensures forall k :: |existing| <= k < |Merge(existing, incoming, f)| ==>
      Merge(existing, incoming, f)[k] in incoming && !HasDup(Merge(existing, incoming, f)[..k], Merge(existing, incoming, f)[k], f)
    decreases |incoming|
  {
    if incoming != [] {
      var front := incoming[..|incoming| - 1];
      MergeShape(existing, front, f);
      var m := Merge(existing, front, f);
      assert forall x :: x in front ==> x in incoming;
      if !HasDup(m, incoming[|incoming| - 1], f) {
        assert (m + [incoming[|incoming| - 1]])[..|m|] == m;
        forall k | |existing| <= k < |m| ensures (m + [incoming[|incoming| - 1]])[..k] == m[..k] { }
      }
    }
  }

  /** Every new attachment ends up in the merged list or is duplicated by an entry of it. */
  lemma {:induction false} MergeCovers(existing: seq<Js>, incoming: seq<Js>, f: Formatters)
    ensures forall j :: 0 <= j < |incoming| ==>
      incoming[j] in Merge(existing, incoming, f) || HasDup(Merge(existing, incoming, f), incoming[j], f)
    decreases |incoming|
  {
    if incoming != [] {
      var front := incoming[..|incoming| - 1];
      var na := incoming[|incoming| - 1];
      MergeCovers(existing, front, f);
      var m := Merge(existing, front, f);
      forall j | 0 <= j < |incoming|
        ensures incoming[j] in Merge(existing, incoming, f) || HasDup(Merge(existing, incoming, f), incoming[j], f)
      {
        if j < |incoming| - 1 {
          assert incoming[j] == front[j];
          if !HasDup(m, na, f) && HasDup(m, incoming[j], f) {
            var i :| 0 <= i < |m| && Dup(m[i], incoming[j], f);
            assert (m + [na])[i] == m[i];
          }
        }
      }
    }
  }

  /** Merging attachments that are all duplicated already changes nothing. */
  lemma {:induction false} MergeNothingNew(m: seq<Js>, incoming: seq<Js>, f: Formatters)
    requires forall j :: 0 <= j < |incoming| ==> HasDup(m, incoming[j], f)
    ensures Merge(m, incoming, f) == m
    decreases |incoming|
  {
    if incoming != [] {
      var front := incoming[..|incoming| - 1];
      assert forall j :: 0 <= j < |front| ==> front[j] == incoming[j];
      MergeNothingNew(m, front, f);
      assert HasDup(m, incoming[|incoming| - 1], f);
    }
  }

  /** A url that `===` compares equal to itself. */
  predicate SelfEqualUrl(x: Js) {
    var u := Get(x, "url");
    Truthy(u) && (u.Str? || u.Num? || u.Bool?)
  }

  /** Finalising twice with the same attachments adds nothing the second time. */
  lemma MergeIdempotent(existing: seq<Js>, incoming: seq<Js>, f: Formatters)
    requires forall j :: 0 <= j < |incoming| ==> SelfEqualUrl(incoming[j])
    ensures Merge(Merge(existing, incoming, f), incoming, f) == Merge(existing, incoming, f)
  {
    var m := Merge(existing, incoming, f);
    MergeCovers(existing, incoming, f);
    forall j | 0 <= j < |incoming| ensures HasDup(m, incoming[j], f) {
      if incoming[j] in m {
        var i :| 0 <= i < |m| && m[i] == incoming[j];
        assert Dup(m[i], incoming[j], f);
      }
    }
    MergeNothingNew(m, incoming, f);
  }

  // ---------------------------------------------------------------- finishing an appointment

  /** The assigned doctor or an administrator. */
  predicate MayFinalize(a: Appointment, user: Js) {
    StrictEq(IdStr(a.docId), Get(user, "id")) || StrictEq(Get(user, "role"), Str("admin"))
  }

  /** The diagnosis record: always a text and an array of codes. */
  function Diagnosis(d: Js, f: Formatters): (r: Js)
    ensures r.Obj? && |r.fields| == 2 && Get(r, "codes").Arr?
    ensures !(Truthy(d) && TypeOf(d) == "object") ==> Get(r, "text") == Str(if Truthy(d) then ToStr(d, f) else "")
    ensures Truthy(d) && TypeOf(d) == "object" ==>
      Get(r, "text") == (if Get(d, "text") != Undef then Get(d, "text") else Str(ToStr(d, f))) &&
      (Get(d, "codes").Arr? ==> Get(r, "codes") == Get(d, "codes"))
  {
    var fs :=
      if !Truthy(d) || TypeOf(d) != "object" then
        [Field("text", Str(if Truthy(d) && ToStr(d, f) != "" then ToStr(d, f) else "")), Field("codes", Arr([]))]
      else
        [Field("text", if Get(d, "text") != Undef then Get(d, "text") else Str(ToStr(d, f))),
         Field("codes", if Get(d, "codes").Arr? then Get(d, "codes") else Arr([]))];
    LookupAt(fs, 1, "codes");
    Obj(fs)
  }

  function Vitals(v: Js): (r: Js)
    ensures r.Obj? || r.Arr? || r.Date?
    ensures Truthy(v) && TypeOf(v) == "object" ==> r == v
  {
    if Truthy(v) && TypeOf(v) == "object" then v else Obj([])
  }

  /** The clinical record after a successful `finishAppointment`; `body` is `req.body || {}`. */
  function FinalClinical(c: Clinical, user: Js, body: Js, f: Formatters): (r: Clinical)
    ensures Get(body, "doctorNotes").Str? ==> r.doctorNotes == Get(body, "doctorNotes")
    ensures !Get(body, "doctorNotes").Str? && Truthy(c.doctorNotes) ==> r.doctorNotes == c.doctorNotes
    ensures !Get(body, "doctorNotes").Str? && !Truthy(c.doctorNotes) ==> r.doctorNotes == Str("")
    ensures c.attachments <= r.attachments
    ensures r.finalizedBy == Get(user, "id")
  {
    var notes := Get(body, "doctorNotes");
    var incoming := NormalizeAttachments(Get(body, "attachments"), Get(user, "id"));
    MergeShape(c.attachments, incoming, f);
    c.(diagnosis := Diagnosis(Get(body, "diagnosis"), f),
       prescriptions := NormalizePrescriptions(Get(body, "prescriptions")),
       doctorNotes := if notes.Str? then notes else Or(c.doctorNotes, Str("")),
       vitals := Vitals(Get(body, "vitals")),
       attachments := Merge(c.attachments, incoming, f),
       finalizedAt := Date(None),
       finalizedBy := Get(user, "id"))
  }

  /** `finishAppointment`. `idValid` is whether the id parameter is a non-empty valid ObjectId and
      `found` the result of looking it up. */
  method FinishAppointment(idValid: bool, found: Option<Appointment>, user: Js, body: Js, f: Formatters)
    returns (r: Reply<Appointment>)
    ensures !idValid ==> r == Fail(400, "Invalid appointment id")
    ensures idValid && found.None? ==> r == Fail(404, "Appointment not found")
    ensures idValid && found.Some? && !MayFinalize(found.value, user) ==> r == Fail(403, "Forbidden")
    ensures r.Done? <==> idValid && found.Some? && MayFinalize(found.value, user)
    ensures r.Done? ==> r.value == found.value.(isCompleted := true, clinical := FinalClinical(found.value.clinical, user, body, f))
  {
    if !idValid {
      return Fail(400, "Invalid appointment id");
    }
    if found.None? {
      return Fail(404, "Appointment not found");
    }
    var a := found.value;
    if !MayFinalize(a, user) {
      return Fail(403, "Forbidden");
    }
    var c := a.clinical;
    var notes := Get(body, "doctorNotes");
    var incoming := NormalizeAttachments(Get(body, "attachments"), Get(user, "id"));
    var merged := MergeAttachments(c.attachments, incoming, f);
    var c' := c.(diagnosis := Diagnosis(Get(body, "diagnosis"), f),
                 prescriptions := NormalizePrescriptions(Get(body, "prescriptions")),
                 doctorNotes := if notes.Str? then notes else Or(c.doctorNotes, Str("")),
                 vitals := Vitals(Get(body, "vitals")),
                 attachments := merged,
                 finalizedAt := Date(None),
                 finalizedBy := Get(user, "id"));
    r := Done(a.(isCompleted := true, clinical := c'));
  }

  // ---------------------------------------------------------------- reading an appointment

  predicate HasRole(user: Js, role: string) {
    StrictEq(Get(user, "role"), Str(role))
  }

  /** `getAppointmentDetails` */
  function AppointmentDetails(idValid: bool, found: Option<Appointment>, user: Js): Reply<Appointment> {
    if !idValid then Fail(400, "Invalid appointment id")
    else if found.None? then Fail(404, "Not found")
    else
      var a := found.value;
      var isPatient := HasRole(user, "patient") && StrictEq(Get(user, "id"), IdStr(a.userId));
      var isDoctor := HasRole(user, "doctor") && StrictEq(Get(user, "id"), IdStr(a.docId));
      var isAdmin := HasRole(user, "admin");
      if !isPatient && !isDoctor && !isAdmin then Fail(403, "Forbidden") else Done(a)
  }

  /** `id === x?.toString()`: the same string, or both absent. */
  predicate SameId(id: Js, x: Option<string>) {
    if x.Some? then id == Str(x.value) else id == Undef
  }

  /** Who may read an appointment: its patient, its doctor, or an administrator; the answer is the
      stored appointment itself. */
  lemma DetailsAccess(idValid: bool, found: Option<Appointment>, user: Js)
    ensures AppointmentDetails(idValid, found, user).Done? ==> idValid && found.Some? && AppointmentDetails(idValid, found, user).value == found.value
    ensures idValid && found.Some? ==>
      (AppointmentDetails(idValid, found, user).Done? <==>
        HasRole(user, "admin") ||
        (HasRole(user, "patient") && SameId(Get(user, "id"), found.value.userId)) ||
        (HasRole(user, "doctor") && SameId(Get(user, "id"), found.value.docId)))
    ensures idValid && found.Some? && !AppointmentDetails(idValid, found, user).Done? ==> AppointmentDetails(idValid, found, user) == Fail(403, "Forbidden")
  {
  }

  /** A patient never reads an appointment booked by somebody else. */
  lemma PatientSeesOnlyOwn(idValid: bool, found: Option<Appointment>, user: Js)
    requires HasRole(user, "patient") && found.Some? && Get(user, "id") != IdStr(found.value.userId)
    ensures !AppointmentDetails(idValid, found, user).Done?
  {
  }

  // ---------------------------------------------------------------- removing an attachment

  /** An attachment identified by the `fileId` route parameter through its fileId, _id or id. */
  predicate IdMatch(a: Js, fid: string, f: Formatters) {
    (Truthy(Get(a, "fileId")) && ToStr(Get(a, "fileId"), f) == fid) ||
    (Truthy(Get(a, "_id")) && ToStr(Get(a, "_id"), f) == fid) ||
    (Truthy(Get(a, "id")) && ToStr(Get(a, "id"), f) == fid)
  }

  predicate UrlMatch(a: Js, url: Js) {
    StrictEq(Get(a, "url"), url)
  }

  /** The id parameter takes part in the lookup unless it is empty or the text "undefined". */
  predicate UsableId(fid: string) {
    fid != "" && fid != "undefined"
  }

  /** The index to remove, or -1. */
  function AttachmentIndex(atts: seq<Js>, fid: string, url: Js, f: Formatters): (i: int)
    ensures -1 <= i < |atts|
    ensures i >= 0 && UsableId(fid) && IdMatch(atts[i], fid, f) ==> forall j :: 0 <= j < i ==> !IdMatch(atts[j], fid, f)
    ensures i >= 0 && !(UsableId(fid) && IdMatch(atts[i], fid, f)) ==>
      (!UsableId(fid) || forall j :: 0 <= j < |atts| ==> !IdMatch(atts[j], fid, f)) &&
      Truthy(url) && UrlMatch(atts[i], url) && forall j :: 0 <= j < i ==> !UrlMatch(atts[j], url)
    ensures i == -1 <==>
      (!UsableId(fid) || forall j :: 0 <= j < |atts| ==> !IdMatch(atts[j], fid, f)) &&
      (!Truthy(url) || forall j :: 0 <= j < |atts| ==> !UrlMatch(atts[j], url))
  {
    var byId := if UsableId(fid) then FindIndex(atts, a => IdMatch(a, fid, f)) else -1;
    if byId == -1 && Truthy(url) then FindIndex(atts, a => UrlMatch(a, url)) else byId
  }

  /** `deleteAppointmentAttachment`; `body` is `req.body || {}`. The removed entry is spliced out. */
  function DeleteAttachment(idValid: bool, found: Option<Appointment>, user: Js, fid: string, body: Js, f: Formatters)
    : (r: Reply<Appointment>)
    ensures !idValid ==> r == Fail(400, "Invalid appointment id")
    ensures idValid && found.None? ==> r == Fail(404, "Appointment not found")
    ensures idValid && found.Some? && !MayFinalize(found.value, user) ==> r == Fail(403, "Forbidden")
    ensures idValid && found.Some? && MayFinalize(found.value, user) ==>
      var atts := found.value.clinical.attachments;
      var i := AttachmentIndex(atts, fid, Get(body, "url"), f);
      (i == -1 ==> r == Fail(404, "Attachment not found")) &&
      (i >= 0 ==>
        (r.Done? &&
         r.value == found.value.(clinical := found.value.clinical.(attachments := r.value.clinical.attachments)) &&
         |r.value.clinical.attachments| == |atts| - 1 &&
         (forall j :: 0 <= j < i ==> r.value.clinical.attachments[j] == atts[j]) &&
         (forall j :: i < j < |atts| ==> r.value.clinical.attachments[j - 1] == atts[j])))
  {
    if !idValid then Fail(400, "Invalid appointment id")
    else if found.None? then Fail(404, "Appointment not found")
    else
      var a := found.value;
      if !MayFinalize(a, user) then Fail(403, "Forbidden")
      else
        var atts := a.clinical.attachments;
        var i := AttachmentIndex(atts, fid, Get(body, "url"), f);
        if i == -1 then Fail(404, "Attachment not found")
        else Done(a.(clinical := a.clinical.(attachments := Splice(atts, i))))
  }

  /** `atts.splice(i, 1)` on the stored list. */
  function Splice(s: seq<Js>, i: nat): (r: seq<Js>)
    requires i < |s|
    ensures |r| == |s| - 1
    ensures forall j :: 0 <= j < i ==> r[j] == s[j]
    ensures forall j :: i < j < |s| ==> r[j - 1] == s[j]
    ensures multiset(r) + multiset{s[i]} == multiset(s)
  {
    assert s == s[..i] + [s[i]] + s[i + 1..];
    s[..i] + s[i + 1..]
  }

  /** A removal deletes exactly one occurrence of the chosen attachment. */
  lemma DeleteRemovesOne(idValid: bool, found: Option<Appointment>, user: Js, fid: string, body: Js, f: Formatters)
    requires DeleteAttachment(idValid, found, user, fid, body, f).Done?
    ensures var atts := found.value.clinical.attachments;
      var i := AttachmentIndex(atts, fid, Get(body, "url"), f);
      0 <= i < |atts| &&
      multiset(DeleteAttachment(idValid, found, user, fid, body, f).value.clinical.attachments) + multiset{atts[i]} == multiset(atts)
  {
    var atts := found.value.clinical.attachments;
    var i := AttachmentIndex(atts, fid, Get(body, "url"), f);
    assert idValid && found.Some? && MayFinalize(found.value, user) && i != -1;
  }

}
