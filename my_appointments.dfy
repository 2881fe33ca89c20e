/** The patient's list of appointments (frontend/src/pages/MyAppointments.jsx): how a slot date is
    shown, which action buttons an appointment gets, and when a PDF download is saved. */
module MyAppointments {
  import opened JsValues
  import opened Appointments
  import Booking
  import Auth

  const Months: seq<string> := ["Jan", "Feb", "Mar", "Apr", "May", "Jun", "Jul", "Aug", "Sep", "Oct", "Nov", "Dec"]

  /** `months[x]` concatenated into a string: an index that is not a whole number from 0 to 11
      (NaN included) reads as `undefined`. */
  function MonthAt(x: Option<real>): (name: string)
    ensures name == "undefined" || name in Months
    ensures x.Some? && x.value.Floor as real == x.value && 0 <= x.value.Floor < 12 ==> name == Months[x.value.Floor]
  {
    if x.Some? && x.value == x.value.Floor as real && 0 <= x.value.Floor < 12 then Months[x.value.Floor]
    else "undefined"
  }

  /** `slotDate.split("_")`, with the month part turned into a name by `month`. */
  function Format(slotDate: Option<string>, month: string -> string): string {
    if slotDate.None? || slotDate.value == "" then ""
    else
      var parts := Split(slotDate.value, {'_'});
      if |parts| < 3 then slotDate.value else parts[0] + " " + month(parts[1]) + " " + parts[2]
  }

  /** `months[Number(part)]`, as the page indexes the 0-based month list. */
  function MonthAsWritten(part: string): string {
    MonthAt(StrToNumber(part))
  }

  /** `months[Number(part) - 1]`: the date keys count months from 1. */
  function MonthFromOne(part: string): string {
    MonthBefore(StrToNumber(part))
  }

  /** `months[x - 1]`. */
  function MonthBefore(x: Option<real>): string {
    MonthAt(if x.Some? then Some(x.value - 1.0) else None)
  }

  /** The page's `slotDateFormat` as written. */
  function SlotDateFormatAsWritten(slotDate: Option<string>): (r: string)
    ensures slotDate.None? || slotDate == Some("") ==> r == ""
    ensures slotDate.Some? && slotDate.value != "" && |Split(slotDate.value, {'_'})| < 3 ==> r == slotDate.value
  {
    Format(slotDate, MonthAsWritten)
  }

  /** `slotDateFormat` reading the middle part as a month counted from 1. A missing or empty date
      shows nothing; a value without three parts is shown unchanged; otherwise day, month name
      and year are separated by single spaces. */
  function SlotDateFormat(slotDate: Option<string>): (r: string)
    ensures slotDate.None? || slotDate == Some("") ==> r == ""
    ensures slotDate.Some? && slotDate.value != "" && |Split(slotDate.value, {'_'})| < 3 ==> r == slotDate.value
    ensures slotDate.Some? && |Split(slotDate.value, {'_'})| >= 3 ==>
      var parts := Split(slotDate.value, {'_'});
      r == parts[0] + " " + MonthFromOne(parts[1]) + " " + parts[2]
  {
    Format(slotDate, MonthFromOne)
  }

  /** The month part of a date key names the month it counts from 1. */
  lemma MonthOfNumeral(m: nat)
    requires 1 <= m <= 12
    ensures MonthFromOne(NatToDecimal(m)) == Months[m - 1]
    ensures MonthAsWritten(NatToDecimal(m)) == if m < 12 then Months[m] else "undefined"
  {
    NumeralNumber(m);
    MonthsOfNumber(NatToDecimal(m), m);
  }

  /** A month part that reads as the number m. */
  lemma MonthsOfNumber(s: string, m: nat)
    requires 1 <= m <= 12 && StrToNumber(s) == Some(m as real)
    ensures MonthFromOne(s) == Months[m - 1]
    ensures MonthAsWritten(s) == if m < 12 then Months[m] else "undefined"
  {
    FromOneOfNumber(s, m);
    AsWrittenOfNumber(s, m);
  }

  lemma FromOneOfNumber(s: string, m: nat)
    requires 1 <= m <= 12 && StrToNumber(s) == Some(m as real)
    ensures MonthFromOne(s) == Months[m - 1]
  {
    WholeMonthBefore(m);
  }

  lemma WholeMonthBefore(m: nat)
    requires 1 <= m <= 12
    ensures MonthBefore(Some(m as real)) == Months[m - 1]
  {
    assert m as real - 1.0 == (m - 1) as real;
    WholeMonth(m - 1);
  }

  lemma AsWrittenOfNumber(s: string, m: nat)
    requires 1 <= m <= 12 && StrToNumber(s) == Some(m as real)
    ensures MonthAsWritten(s) == if m < 12 then Months[m] else "undefined"
  {
    WholeMonth(m);
  }

  /** A whole index reads as its month, or as `undefined` past the last one. */
  lemma WholeMonth(k: nat)
    ensures MonthAt(Some(k as real)) == if k < 12 then Months[k] else "undefined"
  {
    assert (k as real).Floor == k;
  }

  /** The three parts of a date key. */
  lemma KeyParts(d: Booking.DayDate, month: string -> string)
    ensures Format(Some(Booking.DateKey(d)), month) ==
      NatToDecimal(d.day) + " " + month(NatToDecimal(d.month0 + 1)) + " " + NatToDecimal(d.year)
  {
    Booking.DateKeyParts(d);
  }

  /** A date key written at booking time is shown with its own day, month and year. */
  lemma FormatsBookingKey(d: Booking.DayDate)
    requires d.month0 < 12
    ensures SlotDateFormat(Some(Booking.DateKey(d))) ==
      NatToDecimal(d.day) + " " + Months[d.month0] + " " + NatToDecimal(d.year)
  {
    KeyParts(d, MonthFromOne);
    MonthOfNumeral(d.month0 + 1);
  }

  /** As written, a booked date is shown one month late, and a December date as `undefined`. */
  lemma AsWrittenShowsNextMonth(d: Booking.DayDate)
    requires d.month0 < 12
    ensures SlotDateFormatAsWritten(Some(Booking.DateKey(d))) ==
      NatToDecimal(d.day) + " " + MonthAsWritten(NatToDecimal(d.month0 + 1)) + " " + NatToDecimal(d.year)
    ensures d.month0 < 11 ==> MonthAsWritten(NatToDecimal(d.month0 + 1)) == Months[d.month0 + 1]
    ensures d.month0 == 11 ==> MonthAsWritten(NatToDecimal(d.month0 + 1)) == "undefined"
  {
    KeyParts(d, MonthAsWritten);
    MonthOfNumeral(d.month0 + 1);
  }

  /** The month names are pairwise distinct three-letter words. */
  lemma MonthsDistinct()
    ensures forall i, j :: 0 <= i < j < 12 ==> Months[i] != Months[j]
    ensures forall i :: 0 <= i < 12 ==> |Months[i]| == 3
  {
  }

  /** Day, month and year with single spaces between them determine the month. */
  lemma ShownMonth(day: string, m: string, n: string, year: string)
    requires day + " " + m + " " + year == day + " " + n + " " + year
    requires |m| == 3
    ensures m == n
  {
    var x := day + " " + m + " " + year;
    var y := day + " " + n + " " + year;
    assert |n| == 3;
    assert x[|day| + 1..|day| + 4] == m;
    assert y[|day| + 1..|day| + 4] == n;
  }

  /** As written, no booked date is shown with its own month. */
  lemma AsWrittenDiffers(d: Booking.DayDate)
    requires d.month0 < 12
    ensures SlotDateFormatAsWritten(Some(Booking.DateKey(d))) != SlotDateFormat(Some(Booking.DateKey(d)))
  {
    FormatsBookingKey(d);
    AsWrittenShowsNextMonth(d);
    MonthsDistinct();
    var m := MonthAsWritten(NatToDecimal(d.month0 + 1));
    if d.month0 < 11 && SlotDateFormatAsWritten(Some(Booking.DateKey(d))) == SlotDateFormat(Some(Booking.DateKey(d))) {
      ShownMonth(NatToDecimal(d.day), Months[d.month0], m, NatToDecimal(d.year));
    }
  }

  // ---------------------------------------------------------------- action buttons

  /** The controls rendered for one appointment. `selected` is the id whose payment gateways are
      open (the page's `payment` state). */
  datatype Controls = Controls(
    payOnline: bool,
    gateways: bool,
    paid: bool,
    completed: bool,
    cancel: bool,
    cancelledBadge: bool,
    pdfMode: string)

  function ControlsOf(item: Appointment, id: string, selected: string): (c: Controls)
    ensures c.payOnline <==> !item.cancelled && !item.payment && !item.isCompleted && selected != id
    ensures c.gateways <==> !item.cancelled && !item.payment && !item.isCompleted && selected == id
    ensures c.paid <==> !item.cancelled && item.payment && !item.isCompleted
    ensures c.completed <==> item.isCompleted
    ensures c.cancel <==> !item.cancelled && !item.isCompleted
    ensures c.cancelledBadge <==> item.cancelled && !item.isCompleted
    ensures c.pdfMode == (if item.isCompleted then "full" else "ticket")
  {
    var open := !item.cancelled && !item.isCompleted;
    Controls(
      open && !item.payment && selected != id,
      open && !item.payment && selected == id,
      open && item.payment,
      item.isCompleted,
      open,
      item.cancelled && !item.isCompleted,
      if item.isCompleted then "full" else "ticket")
  }

  function Count(b: bool): nat {
    if b then 1 else 0
  }

  /** Every appointment shows exactly one of: the pay button, the gateways, the paid badge, the
      completed badge, the cancelled badge; and the cancel button exactly with the first three. */
  lemma ExactlyOneStatus(item: Appointment, id: string, selected: string)
    ensures var c := ControlsOf(item, id, selected);
      Count(c.payOnline) + Count(c.gateways) + Count(c.paid) + Count(c.completed) + Count(c.cancelledBadge) == 1 &&
      (c.cancel <==> c.payOnline || c.gateways || c.paid)
  {
  }

  /** Pressing "Pay Online" (selecting the appointment's id) replaces the button by the gateways. */
  lemma SelectingOpensGateways(item: Appointment, id: string, selected: string)
    requires ControlsOf(item, id, selected).payOnline
    ensures ControlsOf(item, id, id).gateways && !ControlsOf(item, id, id).payOnline
  {
  }

  // ---------------------------------------------------------------- PDF download

  /** What the PDF endpoint answered: a response with its `content-type` header, or an error with
      its status and body message when there was a response. */
  datatype PdfResponse = Ok(contentType: Option<string>) | Error(status: Option<int>, message: Js)

  /** `Authorization: Bearer <token>` as the page sends it. */
  function BearerHeader(token: string): string {
    "Bearer " + token
  }

  /** The middleware reads back the token the page sends, when it has no space in it. */
  lemma BearerRoundTrip(token: string)
    requires NoneIn(token, {' '})
    ensures Auth.TokenOf(BearerHeader(token)) == token
  {
    assert NoneIn("Bearer", {' '});
    assert BearerHeader(token) == "Bearer" + [' '] + token;
    SplitAt("Bearer", ' ', token, {' '});
    SplitNone(token, {' '});
  }

  datatype PdfOutcome = Toast(message: string) | Save(fileName: string, blobType: string)

  /** The header's content type, `application/pdf` when it is missing or empty. */
  function ContentType(h: Option<string>): (t: string)
    ensures h.Some? && h.value != "" ==> t == h.value
    ensures h.None? || h == Some("") ==> t == "application/pdf"
  {
    if h.Some? && h.value != "" then h.value else "application/pdf"
  }

  /** `downloadAppointmentPdf`: no token, a non-PDF answer and an error all end in a toast; a
      PDF answer is saved as `appointment_<id>_<mode>.pdf`. */
  function DownloadPdf(token: Js, id: string, mode: string, resp: PdfResponse, f: Formatters): (o: PdfOutcome)
    ensures !Truthy(token) ==> o == Toast("Not authenticated")
    ensures o.Save? <==> Truthy(token) && resp.Ok? && Includes(ContentType(resp.contentType), "pdf")
    ensures o.Save? ==> o.fileName == "appointment_" + id + "_" + mode + ".pdf" && o.blobType == ContentType(resp.contentType)
    ensures Truthy(token) && resp.Ok? && !Includes(ContentType(resp.contentType), "pdf") ==>
      o == Toast("Failed to download PDF (server error).")
    ensures Truthy(token) && resp.Error? && resp.status in {Some(401), Some(403)} ==>
      o == Toast("You are not authorized to download this PDF.")
  {
    if !Truthy(token) then Toast("Not authenticated")
    else match resp
      case Ok(h) =>
        var ct := ContentType(h);
        if !Includes(ct, "pdf") then Toast("Failed to download PDF (server error).")
        else Save("appointment_" + id + "_" + mode + ".pdf", ct)
      case Error(status, message) =>
        if status == Some(401) || status == Some(403) then Toast("You are not authorized to download this PDF.")
        else
          var m := Or(message, Str("Failed to download PDF"));
          Toast(ToStr(m, f))
  }

  /** A response without a content type is taken for a PDF and saved. */
  lemma MissingTypeIsSaved(token: Js, id: string, mode: string, f: Formatters)
    requires Truthy(token)
    ensures DownloadPdf(token, id, mode, Ok(None), f).Save?
  {
    assert OccursAt("application/pdf", "pdf", 12);
  }
}
