/** One patient's appointments as a doctor sees them (admin/src/pages/Doctor/DoctorPatientDetails.jsx):
    attachment totals, the slot search, pagination and the status shown per appointment. */
module PatientDetails {
  import opened JsValues
  import opened Appointments
  import opened AppointmentList

  /** `appointments.reduce((acc, a) => acc + attachments.length, 0)` */
  function TotalAttachments(appts: seq<Appointment>): nat
    decreases |appts|
  {
    if appts == [] then 0
    else TotalAttachments(appts[..|appts| - 1]) + |appts[|appts| - 1].clinical.attachments|
  }

  predicate HasAttachments(a: Appointment) {
    |a.clinical.attachments| > 0
  }

  /** The number of appointments that hold at least one attachment. */
  function Folders(appts: seq<Appointment>): (n: nat)
    ensures n <= |appts|
  {
    |Filter(appts, HasAttachments)|
  }

  /** The folder count adds up over a split of the list ... */
  lemma FoldersAppend(xs: seq<Appointment>, ys: seq<Appointment>)
    ensures Folders(xs + ys) == Folders(xs) + Folders(ys)
  {
    FilterAppend(xs, ys, HasAttachments);
  }

  /** ... and one appointment counts once exactly when it holds an attachment, so the count is the
      number of appointments with at least one attachment. */
  lemma FoldersSingle(a: Appointment)
    ensures Folders([a]) == if HasAttachments(a) then 1 else 0
  {
    assert [a][1..] == [];
  }

  /** The total counts every attachment of every appointment: it is zero exactly when no
      appointment has one, and at least the number of appointments that have some. */
  lemma {:induction false} TotalsAgree(appts: seq<Appointment>)
    ensures TotalAttachments(appts) == 0 <==> forall i :: 0 <= i < |appts| ==> !HasAttachments(appts[i])
    ensures Folders(appts) <= TotalAttachments(appts)
    decreases |appts|
  {
    if appts != [] {
      var front := appts[..|appts| - 1];
      var last := appts[|appts| - 1];
      TotalsAgree(front);
      assert appts == front + [last];
      FilterAppend(front, [last], HasAttachments);
      assert forall i :: 0 <= i < |front| ==> front[i] == appts[i];
    }
  }

  /** The totals add up over a split of the list. */
  lemma {:induction false} TotalAppend(xs: seq<Appointment>, ys: seq<Appointment>)
    ensures TotalAttachments(xs + ys) == TotalAttachments(xs) + TotalAttachments(ys)
    decreases |ys|
  {
    if ys == [] {
      assert xs + ys == xs;
    } else {
      assert (xs + ys)[..|xs + ys| - 1] == xs + ys[..|ys| - 1];
      TotalAppend(xs, ys[..|ys| - 1]);
    }
  }

  /** The slot search matches the formatted slot date or the slot time only. */
  predicate SlotMatches(a: Appointment, q: string, fmtDate: string -> string)
    ensures q == "" ==> SlotMatches(a, q, fmtDate)
    ensures a.slotTime.Some? && Includes(ToLower(a.slotTime.value), q) ==> SlotMatches(a, q, fmtDate)
  {
    var date := if a.slotDate.Some? && a.slotDate.value != "" then ToLower(fmtDate(a.slotDate.value)) else "";
    var time := ToLower(if a.slotTime.Some? then a.slotTime.value else "");
    Includes(date, q) || Includes(time, q)
  }

  function SlotSearch(appts: seq<Appointment>, term: Js, fmtDate: string -> string): (r: seq<Appointment>)
    ensures Query(term) == "" ==> r == appts
    ensures Query(term) != "" ==>
      IsSubseq(r, appts) && forall a :: a in r <==> a in appts && SlotMatches(a, Query(term), fmtDate)
  {
    var q := Query(term);
    if q == "" then appts else Filter(appts, a => SlotMatches(a, q, fmtDate))
  }

  /** The pagination controls are rendered only when there is more than one page of results. */
  predicate ShowPager(n: nat) {
    n > PageSize
  }

  lemma PagerIffSeveralPages(n: nat)
    ensures ShowPager(n) <==> TotalPages(n) > 1
  {
  }

  /** Without the controls the page stays 1, and page 1 shows every result. */
  lemma OnePageShowsAll<T>(s: seq<T>)
    requires !ShowPager(|s|)
    ensures PageOf(s, 1) == s
  {
    assert s[0..|s|] == s;
  }

  /** The status label: cancellation wins over completion. */
  function Status(a: Appointment): (s: string)
    ensures s == "Cancelled" <==> a.cancelled
    ensures s == "Completed" <==> !a.cancelled && a.isCompleted
    ensures s == "Pending" <==> !a.cancelled && !a.isCompleted
  {
    if a.cancelled then "Cancelled" else if a.isCompleted then "Completed" else "Pending"
  }
}
