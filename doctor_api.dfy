/** The doctor controller (backend/controllers/doctorController.js): availability toggling, the
    list of patients a doctor has seen, completing and cancelling an appointment (with release of
    the booked slot) and the dashboard figures. Database queries are modelled as filters over the
    stored appointments; the sort the patient query asks for is the order the input already has. */
module DoctorApi {
  import opened JsValues
  import opened Appointments

  /** The doctor document fields these handlers touch. */
  datatype Doctor = Doctor(available: bool, slotsBooked: Js)

  /** The JSON answers of this controller: success with a value, a refusal with the message the
      controller writes, or an exception whose runtime message is not modelled. */
  datatype Outcome<T> = Success(value: T) | Failure(message: string) | Thrown

  // ---------------------------------------------------------------- availability

  /** `changeAvailability`: a missing doctor makes `docData.available` throw. */
  function ChangeAvailability(doc: Option<Doctor>): (r: Outcome<Doctor>)
    ensures doc.None? <==> r == Thrown
    ensures doc.Some? ==> r == Success(doc.value.(available := !doc.value.available))
  {
    if doc.None? then Thrown else Success(doc.value.(available := !doc.value.available))
  }

  /** Toggling twice restores the stored availability. */
  lemma ToggleTwice(d: Doctor)
    ensures ChangeAvailability(Some(d)).Success?
    ensures ChangeAvailability(Some(ChangeAvailability(Some(d)).value)) == Success(d)
  {
  }

  /** `req.body.docId || (req.user && req.user.id)` */
  function DocIdOf(body: Js, user: Js): (d: Js)
    ensures Truthy(Get(body, "docId")) ==> d == Get(body, "docId")
    ensures !Truthy(Get(body, "docId")) ==> d == (if Truthy(user) then Get(user, "id") else user)
  {
    Or(Get(body, "docId"), if Truthy(user) then Get(user, "id") else user)
  }

  // ---------------------------------------------------------------- patients of a doctor

  datatype PatientEntry = PatientEntry(userId: string, userData: Js, lastVisited: Js)

  /** The query of completed appointments of one doctor. */
  function CompletedFor(all: seq<Appointment>, docId: string): (r: seq<Appointment>)
    ensures forall a :: a in r <==> a in all && a.docId == Some(docId) && a.isCompleted
  {
    if all == [] then []
    else
      assert forall a :: a in all <==> a == all[0] || a in all[1..];
      (if all[0].docId == Some(docId) && all[0].isCompleted then [all[0]] else []) + CompletedFor(all[1..], docId)
  }

  /** `a.userId?.toString() || null`, with null as None. */
  function Uid(a: Appointment): (u: Option<string>)
    ensures u.Some? <==> a.userId.Some? && a.userId.value != ""
  {
    if a.userId.Some? && a.userId.value != "" then a.userId else None
  }

  function SlotDateJs(a: Appointment): Js {
    if a.slotDate.Some? then Str(a.slotDate.value) else Undef
  }

  function EntryOf(a: Appointment): (e: PatientEntry)
    requires Uid(a).Some?
    ensures e.userId == Uid(a).value
    ensures FirstTruthy([a.userData], Obj([]), e.userData)
    ensures FirstTruthy([a.date, SlotDateJs(a)], Null, e.lastVisited)
  {
    PatientEntry(Uid(a).value, Chain([a.userData], Obj([])), Chain([a.date, SlotDateJs(a)], Null))
  }

  predicate Listed(entries: seq<PatientEntry>, uid: string) {
    exists k :: 0 <= k < |entries| && entries[k].userId == uid
  }

  /** The values of the map keyed by patient id after the appointments have been visited in order:
      an appointment adds an entry only when its patient has none yet. */
  function Patients(appts: seq<Appointment>): seq<PatientEntry>
    decreases |appts|
  {
    if appts == [] then []
    else
      var front := Patients(appts[..|appts| - 1]);
      var a := appts[|appts| - 1];
      if Uid(a).None? || Listed(front, Uid(a).value) then front else front + [EntryOf(a)]
  }

  /** `doctorPatients` */
  method DoctorPatients(body: Js, user: Js, all: seq<Appointment>, f: Formatters) returns (r: Outcome<seq<PatientEntry>>)
    ensures !Truthy(DocIdOf(body, user)) ==> r == Failure("Missing docId")
    ensures Truthy(DocIdOf(body, user)) ==> r == Success(Patients(CompletedFor(all, ToStr(DocIdOf(body, user), f))))
  {
    var docId := DocIdOf(body, user);
    if !Truthy(docId) {
      return Failure("Missing docId");
    }
    var appts := CompletedFor(all, ToStr(docId, f));
    var entries: seq<PatientEntry> := [];
    var seen: set<string> := {};
    for i := 0 to |appts|
      invariant entries == Patients(appts[..i])
      invariant forall u :: u in seen <==> Listed(entries, u)
    {
      PatientsStep(appts, i);
      var uid := Uid(appts[i]);
      if uid.Some? && uid.value !in seen {
        ListedSnoc(entries, EntryOf(appts[i]));
        entries := entries + [EntryOf(appts[i])];
        seen := seen + {uid.value};
      }
    }
    assert appts[..|appts|] == appts;
    r := Success(entries);
  }

  /** One more appointment visited: its patient is appended unless absent or already listed. */
  lemma PatientsStep(appts: seq<Appointment>, i: nat)
    requires i < |appts|
    ensures var p := Patients(appts[..i]);
      Patients(appts[..i + 1]) ==
        if Uid(appts[i]).None? || Listed(p, Uid(appts[i]).value) then p else p + [EntryOf(appts[i])]
  {
    assert appts[..i + 1][..i] == appts[..i];
  }

  /** Appending an entry lists its patient and keeps every other listed. */
  lemma ListedSnoc(entries: seq<PatientEntry>, e: PatientEntry)
    ensures forall u :: Listed(entries + [e], u) <==> Listed(entries, u) || u == e.userId
  {
    forall u ensures Listed(entries + [e], u) <==> Listed(entries, u) || u == e.userId {
      if Listed(entries, u) {
        var k :| 0 <= k < |entries| && entries[k].userId == u;
        assert (entries + [e])[k].userId == u;
      }
      assert (entries + [e])[|entries|] == e;
    }
  }

  /** The index of the first appointment of patient uid. */
  function FirstVisit(appts: seq<Appointment>, uid: string): (i: int)
    ensures -1 <= i < |appts|
    ensures i >= 0 ==> Uid(appts[i]) == Some(uid) && forall j :: 0 <= j < i ==> Uid(appts[j]) != Some(uid)
    ensures i == -1 <==> forall j :: 0 <= j < |appts| ==> Uid(appts[j]) != Some(uid)
  {
    FindIndex(appts, a => Uid(a) == Some(uid))
  }

  /** Appending an appointment does not move the first visit of a patient already seen. */
  lemma FirstVisitPrefix(appts: seq<Appointment>, u: string)
    requires appts != [] && FirstVisit(appts[..|appts| - 1], u) >= 0
    ensures FirstVisit(appts, u) == FirstVisit(appts[..|appts| - 1], u)
  {
    var front := appts[..|appts| - 1];
    var i := FirstVisit(front, u);
    assert appts[i] == front[i];
    assert forall j :: 0 <= j < i ==> appts[j] == front[j];
  }

  /** Every listed patient was seen, and the entry is built from that patient's first appointment. */
  lemma {:induction false} PatientsFromFirstVisit(appts: seq<Appointment>)
    ensures forall k :: 0 <= k < |Patients(appts)| ==>
      var i := FirstVisit(appts, Patients(appts)[k].userId);
      0 <= i && Patients(appts)[k] == EntryOf(appts[i])
    decreases |appts|
  {
    if appts != [] {
      var front := appts[..|appts| - 1];
      var a := appts[|appts| - 1];
      PatientsFromFirstVisit(front);
      var p := Patients(front);
      forall k | 0 <= k < |p| ensures FirstVisit(appts, p[k].userId) == FirstVisit(front, p[k].userId) {
        FirstVisitPrefix(appts, p[k].userId);
      }
      if Uid(a).Some? && !Listed(p, Uid(a).value) {
        var u := Uid(a).value;
        assert FirstVisit(front, u) == -1 by {
          if FirstVisit(front, u) >= 0 {
            PatientsCover(front);
          }
        }
        assert forall j :: 0 <= j < |front| ==> appts[j] == front[j];
        var q := p + [EntryOf(a)];
        assert forall k :: 0 <= k < |p| ==> q[k] == p[k];
      }
    }
  }

  /** Every appointment that names a patient has that patient listed. */
  lemma {:induction false} PatientsCover(appts: seq<Appointment>)
    ensures forall i :: 0 <= i < |appts| && Uid(appts[i]).Some? ==> Listed(Patients(appts), Uid(appts[i]).value)
    decreases |appts|
  {
    if appts != [] {
      var front := appts[..|appts| - 1];
      var a := appts[|appts| - 1];
      PatientsCover(front);
      var p := Patients(front);
      var q := Patients(appts);
      assert p <= q;
      forall i | 0 <= i < |appts| && Uid(appts[i]).Some? ensures Listed(q, Uid(appts[i]).value) {
        if i < |front| {
          assert appts[i] == front[i];
          var k :| 0 <= k < |p| && p[k].userId == Uid(front[i]).value;
          assert q[k] == p[k];
        } else if !Listed(p, Uid(a).value) {
          assert q[|p|].userId == Uid(a).value;
        }
      }
    }
  }

  /** Patients are listed in the order of their first appointments; hence none is listed twice. */
  lemma {:induction false} PatientsInFirstVisitOrder(appts: seq<Appointment>)
    ensures forall k1, k2 :: 0 <= k1 < k2 < |Patients(appts)| ==>
      FirstVisit(appts, Patients(appts)[k1].userId) < FirstVisit(appts, Patients(appts)[k2].userId)
    ensures forall k1, k2 :: 0 <= k1 < k2 < |Patients(appts)| ==> Patients(appts)[k1].userId != Patients(appts)[k2].userId
    decreases |appts|
  {
    if appts != [] {
      var front := appts[..|appts| - 1];
      var a := appts[|appts| - 1];
      PatientsInFirstVisitOrder(front);
      PatientsFromFirstVisit(front);
      var p := Patients(front);
      forall k | 0 <= k < |p| ensures FirstVisit(appts, p[k].userId) == FirstVisit(front, p[k].userId) {
        FirstVisitPrefix(appts, p[k].userId);
      }
      if Uid(a).Some? && !Listed(p, Uid(a).value) {
        NewPatientLast(appts);
      }
    }
  }

  /** A patient first seen in the last appointment is listed after every earlier one. */
  lemma NewPatientLast(appts: seq<Appointment>)
    requires appts != []
    requires var front := appts[..|appts| - 1];
      forall k :: 0 <= k < |Patients(front)| ==>
        0 <= FirstVisit(appts, Patients(front)[k].userId) == FirstVisit(front, Patients(front)[k].userId)
    requires var a := appts[|appts| - 1]; Uid(a).Some? && !Listed(Patients(appts[..|appts| - 1]), Uid(a).value)
    requires var p := Patients(appts[..|appts| - 1]);
      forall k1, k2 :: 0 <= k1 < k2 < |p| ==> FirstVisit(appts, p[k1].userId) < FirstVisit(appts, p[k2].userId)
    ensures forall k1, k2 :: 0 <= k1 < k2 < |Patients(appts)| ==>
      FirstVisit(appts, Patients(appts)[k1].userId) < FirstVisit(appts, Patients(appts)[k2].userId)
  {
    var front := appts[..|appts| - 1];
    var a := appts[|appts| - 1];
    var u := Uid(a).value;
    var p := Patients(front);
    assert FirstVisit(front, u) == -1 by {
      if FirstVisit(front, u) >= 0 {
        PatientsCover(front);
      }
    }
    assert forall j :: 0 <= j < |front| ==> appts[j] == front[j];
    assert FirstVisit(appts, u) == |appts| - 1;
    var q := p + [EntryOf(a)];
    assert Patients(appts) == q;
    forall k1, k2 | 0 <= k1 < k2 < |q| ensures FirstVisit(appts, q[k1].userId) < FirstVisit(appts, q[k2].userId) {
      assert q[k1] == p[k1];
      if k2 < |p| {
        assert q[k2] == p[k2];
      } else {
        assert q[k2].userId == u;
      }
    }
  }

  // ---------------------------------------------------------------- complete and cancel

  /** The appointment exists and belongs to the calling doctor (`docId?.toString() === String(docId)`). */
  predicate OwnedBy(found: Option<Appointment>, docId: Js, f: Formatters) {
    found.Some? && found.value.docId == Some(ToStr(docId, f))
  }

  /** `appointmentComplete`; the answer carries the updated appointment. */
  function AppointmentComplete(body: Js, user: Js, found: Option<Appointment>, f: Formatters): (r: Outcome<Appointment>)
    ensures !Truthy(DocIdOf(body, user)) ==> r == Failure("Missing docId")
    ensures Truthy(DocIdOf(body, user)) && !Truthy(Get(body, "appointmentId")) ==> r == Failure("Missing appointmentId")
    ensures r.Success? <==>
      Truthy(DocIdOf(body, user)) && Truthy(Get(body, "appointmentId")) && OwnedBy(found, DocIdOf(body, user), f)
    ensures r.Success? ==> r.value == found.value.(isCompleted := true)
    ensures Truthy(DocIdOf(body, user)) && Truthy(Get(body, "appointmentId")) && !OwnedBy(found, DocIdOf(body, user), f) ==>
      r == Failure("Mark Failed - permission or not found")
  {
    var docId := DocIdOf(body, user);
    if !Truthy(docId) then Failure("Missing docId")
    else if !Truthy(Get(body, "appointmentId")) then Failure("Missing appointmentId")
    else if found.Some? && StrictEq(IdStr(found.value.docId), Str(ToStr(docId, f))) then
      Success(found.value.(isCompleted := true))
    else Failure("Mark Failed - permission or not found")
  }

  /** `t !== slotTime` over a booked-times list. */
  function RemoveTime(times: seq<Js>, slotTime: Js): (r: seq<Js>)
    ensures forall t :: t in r <==> t in times && !StrictEq(t, slotTime)
    ensures |r| <= |times|
  {
    if times == [] then []
    else
      assert forall t :: t in times <==> t == times[0] || t in times[1..];
      (if !StrictEq(times[0], slotTime) then [times[0]] else []) + RemoveTime(times[1..], slotTime)
  }

  /** The doctor's booked slots after releasing the cancelled appointment's time, when the
      appointment names a doctor, a date and a time and that date holds a list. */
  function ReleaseSlot(doc: Doctor, a: Appointment): (d: Doctor)
    ensures d.available == doc.available
  {
    var slots := Or(doc.slotsBooked, Obj([]));
    if Uid(a.(userId := a.docId)).Some? && a.slotDate.Some? && a.slotDate.value != "" && a.slotTime.Some? && a.slotTime.value != ""
       && Get(slots, a.slotDate.value).Arr? then
      doc.(slotsBooked := With(slots, a.slotDate.value, Arr(RemoveTime(Get(slots, a.slotDate.value).items, Str(a.slotTime.value)))))
    else doc
  }

  /** Releasing removes every occurrence of the time from that date's list and leaves every other
      date as it was. */
  lemma ReleaseSlotSpec(doc: Doctor, a: Appointment)
    requires a.docId.Some? && a.docId.value != "" && a.slotDate.Some? && a.slotDate.value != ""
    requires a.slotTime.Some? && a.slotTime.value != ""
    requires Get(Or(doc.slotsBooked, Obj([])), a.slotDate.value).Arr?
    ensures var before := Get(Or(doc.slotsBooked, Obj([])), a.slotDate.value).items;
      var after := Get(ReleaseSlot(doc, a).slotsBooked, a.slotDate.value);
      after.Arr? && forall t :: t in after.items <==> t in before && t != Str(a.slotTime.value)
    ensures forall k :: k != a.slotDate.value ==> Get(ReleaseSlot(doc, a).slotsBooked, k) == Get(Or(doc.slotsBooked, Obj([])), k)
  {
    var before := Get(Or(doc.slotsBooked, Obj([])), a.slotDate.value).items;
    var after := RemoveTime(before, Str(a.slotTime.value));
    forall t ensures StrictEq(t, Str(a.slotTime.value)) <==> t == Str(a.slotTime.value) {
    }
  }

  /** `appointmentCancel`; the answer carries the cancelled appointment and the doctor record after
      the slot release (absent when the doctor does not exist). */
  function AppointmentCancel(body: Js, user: Js, found: Option<Appointment>, doc: Option<Doctor>, f: Formatters)
    : (r: Outcome<(Appointment, Option<Doctor>)>)
    ensures !Truthy(DocIdOf(body, user)) ==> r == Failure("Missing docId")
    ensures Truthy(DocIdOf(body, user)) && !Truthy(Get(body, "appointmentId")) ==> r == Failure("Missing appointmentId")
    ensures r.Success? <==>
      Truthy(DocIdOf(body, user)) && Truthy(Get(body, "appointmentId")) && OwnedBy(found, DocIdOf(body, user), f)
    ensures r.Success? ==> r.value.0 == found.value.(cancelled := true) && r.value.1.Some? == doc.Some?
    ensures r.Success? && doc.Some? ==> r.value.1 == Some(ReleaseSlot(doc.value, found.value))
    ensures Truthy(DocIdOf(body, user)) && Truthy(Get(body, "appointmentId")) && !OwnedBy(found, DocIdOf(body, user), f) ==>
      r == Failure("Cancellation Failed - permission or not found")
  {
    var docId := DocIdOf(body, user);
    if !Truthy(docId) then Failure("Missing docId")
    else if !Truthy(Get(body, "appointmentId")) then Failure("Missing appointmentId")
    else if found.Some? && StrictEq(IdStr(found.value.docId), Str(ToStr(docId, f))) then
      var a := found.value;
      Success((a.(cancelled := true), if doc.Some? then Some(ReleaseSlot(doc.value, a)) else None))
    else Failure("Cancellation Failed - permission or not found")
  }

  /** A successful cancellation hands back a doctor whose list for the appointment's date no longer
      holds its time, with every other date as it was. */
  lemma CancelReleasesSlot(body: Js, user: Js, found: Option<Appointment>, doc: Option<Doctor>, f: Formatters)
    requires AppointmentCancel(body, user, found, doc, f).Success? && doc.Some?
    requires var a := found.value;
      a.docId.Some? && a.docId.value != "" &&
      a.slotDate.Some? && a.slotDate.value != "" && a.slotTime.Some? && a.slotTime.value != "" &&
      Get(Or(doc.value.slotsBooked, Obj([])), a.slotDate.value).Arr?
    ensures var a := found.value;
      var d := AppointmentCancel(body, user, found, doc, f).value.1.value;
      var after := Get(d.slotsBooked, a.slotDate.value);
      after.Arr? && Str(a.slotTime.value) !in after.items &&
      (forall k :: k != a.slotDate.value ==> Get(d.slotsBooked, k) == Get(Or(doc.value.slotsBooked, Obj([])), k))
  {
    ReleaseSlotSpec(doc.value, found.value);
  }

  // ---------------------------------------------------------------- dashboard

  /** The appointments query `{ docId }`. */
  function ForDoctor(all: seq<Appointment>, docId: string): (r: seq<Appointment>)
    ensures forall a :: a in r <==> a in all && a.docId == Some(docId)
  {
    if all == [] then []
    else
      assert forall a :: a in all <==> a == all[0] || a in all[1..];
      (if all[0].docId == Some(docId) then [all[0]] else []) + ForDoctor(all[1..], docId)
  }

  /** `item.amount || 0` when the appointment is completed or paid, else nothing. */
  function Earned(a: Appointment): (r: real)
    ensures !(a.isCompleted || a.payment) ==> r == 0.0
    ensures r != 0.0 ==> a.amount == Some(r)
  {
    if (a.isCompleted || a.payment) && a.amount.Some? then a.amount.value else 0.0
  }

  function Earnings(appts: seq<Appointment>): real
    decreases |appts|
  {
    if appts == [] then 0.0 else Earnings(appts[..|appts| - 1]) + Earned(appts[|appts| - 1])
  }

  /** Earnings add up over a split of the appointment list. */
  lemma {:induction false} EarningsAppend(xs: seq<Appointment>, ys: seq<Appointment>)
    ensures Earnings(xs + ys) == Earnings(xs) + Earnings(ys)
    decreases |ys|
  {
    if ys == [] {
      assert xs + ys == xs;
    } else {
      assert (xs + ys)[..|xs + ys| - 1] == xs + ys[..|ys| - 1];
      EarningsAppend(xs, ys[..|ys| - 1]);
    }
  }

  /** Neither unpaid open appointments nor absent amounts contribute. */
  lemma {:induction false} EarningsCountOnlyPaidOrCompleted(appts: seq<Appointment>)
    requires forall i :: 0 <= i < |appts| ==> !(appts[i].isCompleted || appts[i].payment) || appts[i].amount.None?
    ensures Earnings(appts) == 0.0
    decreases |appts|
  {
    if appts != [] {
      EarningsCountOnlyPaidOrCompleted(appts[..|appts| - 1]);
    }
  }

  /** The distinct patient ids in order of first appearance (`patients.includes` / `push`). */
  function DistinctPatients(appts: seq<Appointment>): seq<Option<string>>
    decreases |appts|
  {
    if appts == [] then []
    else
      var front := DistinctPatients(appts[..|appts| - 1]);
      var u := appts[|appts| - 1].userId;
      if u in front then front else front + [u]
  }

  /** The dashboard's patient list has no repeats. */
  lemma {:induction false} DistinctPatientsNoRepeat(appts: seq<Appointment>)
    ensures forall i, j :: 0 <= i < j < |DistinctPatients(appts)| ==> DistinctPatients(appts)[i] != DistinctPatients(appts)[j]
    decreases |appts|
  {
    if appts != [] {
      DistinctPatientsNoRepeat(appts[..|appts| - 1]);
    }
  }

  /** The dashboard's patient list holds exactly the patient ids of the appointments. */
  lemma {:induction false} DistinctPatientsMembers(appts: seq<Appointment>)
    ensures forall u :: u in DistinctPatients(appts) <==> exists i :: 0 <= i < |appts| && appts[i].userId == u
    decreases |appts|
  {
    if appts != [] {
      var front := appts[..|appts| - 1];
      DistinctPatientsMembers(front);
      assert forall i :: 0 <= i < |front| ==> front[i] == appts[i];
      forall v ensures v in DistinctPatients(appts) <==> exists i :: 0 <= i < |appts| && appts[i].userId == v {
        if exists i :: 0 <= i < |appts| && appts[i].userId == v {
          var i :| 0 <= i < |appts| && appts[i].userId == v;
          if i < |front| {
            assert front[i].userId == v;
          }
        }
      }
    }
  }

  /** So the dashboard's patient count is the number of distinct patient ids. */
  lemma DistinctPatientsCount(appts: seq<Appointment>)
    ensures |DistinctPatients(appts)| == |set i | 0 <= i < |appts| :: appts[i].userId|
  {
    DistinctPatientsNoRepeat(appts);
    DistinctPatientsMembers(appts);
    DistinctCard(DistinctPatients(appts), set i | 0 <= i < |appts| :: appts[i].userId);
  }

  /** A repeat-free list whose elements are those of a set has the set's size. */
  lemma DistinctCard(d: seq<Option<string>>, s: set<Option<string>>)
    requires forall i, j :: 0 <= i < j < |d| ==> d[i] != d[j]
    requires forall u :: u in d <==> u in s
    ensures |d| == |s|
  {
    var t := set i | 0 <= i < |d| :: d[i];
    assert t == s;
    DistinctSeqCard(d);
  }

  lemma {:induction false} DistinctSeqCard(d: seq<Option<string>>)
    requires forall i, j :: 0 <= i < j < |d| ==> d[i] != d[j]
    ensures |set i | 0 <= i < |d| :: d[i]| == |d|
    decreases |d|
  {
    if d != [] {
      var front := d[..|d| - 1];
      assert forall i, j :: 0 <= i < j < |front| ==> front[i] != front[j];
      DistinctSeqCard(front);
      var s := set i | 0 <= i < |d| :: d[i];
      var fs := set i | 0 <= i < |front| :: front[i];
      assert s == fs + {d[|d| - 1]};
      assert d[|d| - 1] !in fs;
    }
  }

  datatype Dash = Dash(earnings: real, appointments: nat, patients: nat, latestAppointments: seq<Appointment>)

  /** `appointments.slice().reverse().slice(0, 5)`: the last five, newest first. */
  function Latest(appts: seq<Appointment>): (r: seq<Appointment>)
    ensures |r| == if |appts| < 5 then |appts| else 5
    ensures forall k :: 0 <= k < |r| ==> r[k] == appts[|appts| - 1 - k]
  {
    var n := if |appts| < 5 then |appts| else 5;
    seq(n, k requires 0 <= k < n => appts[|appts| - 1 - k])
  }

  /** `doctorDashboard` */
  method DoctorDashboard(body: Js, user: Js, all: seq<Appointment>, f: Formatters) returns (r: Outcome<Dash>)
    ensures !Truthy(DocIdOf(body, user)) ==> r == Failure("Missing docId")
    ensures Truthy(DocIdOf(body, user)) ==>
      var appts := ForDoctor(all, ToStr(DocIdOf(body, user), f));
      r == Success(Dash(Earnings(appts), |appts|, |DistinctPatients(appts)|, Latest(appts)))
  {
    var docId := DocIdOf(body, user);
    if !Truthy(docId) {
      return Failure("Missing docId");
    }
    var appts := ForDoctor(all, ToStr(docId, f));
    var earnings := 0.0;
    for i := 0 to |appts|
      invariant earnings == Earnings(appts[..i])
    {
      assert appts[..i + 1][..i] == appts[..i];
      if appts[i].isCompleted || appts[i].payment {
        earnings := earnings + (if appts[i].amount.Some? then appts[i].amount.value else 0.0);
      }
    }
    var patients: seq<Option<string>> := [];
    for i := 0 to |appts|
      invariant patients == DistinctPatients(appts[..i])
    {
      assert appts[..i + 1][..i] == appts[..i];
      if appts[i].userId !in patients {
        patients := patients + [appts[i].userId];
      }
    }
    assert appts[..|appts|] == appts;
    r := Success(Dash(earnings, |appts|, |patients|, Latest(appts)));
  }
}
