/** Booking slots on the patient's doctor page (frontend/src/pages/Appointment.jsx). Times are
    minutes of the day and the calendar is a parameter: `dates(i)` is the date i days from now,
    with the month counted from 0 as `getMonth` does. Formatting a time is the parameter `fmt`. */
module Booking {
  import opened JsValues

  datatype DayDate = DayDate(day: nat, month0: nat, year: nat)

  /** A bookable slot: its date, its minute of the day and its displayed time. */
  datatype Slot = Slot(date: DayDate, minute: int, time: string)

  const Opening := 600
  const Closing := 1260
  const Step := 30
  const DaysShown := 7

  /** t is a half-hour mark no earlier than the opening and strictly after now. */
  predicate HalfHourAfter(t: int, now: int) {
    t % Step == 0 && t >= Opening && t > now
  }

  function Now(hour: nat, minute: nat): nat {
    hour * 60 + minute
  }

  /** Today's first slot: 10:00 before ten o'clock, otherwise the next half hour. It is the first
      half-hour mark after now that is not before opening. */
  function TodayStart(hour: nat, minute: nat): (s: int)
    requires hour < 24 && minute < 60
    ensures HalfHourAfter(s, Now(hour, minute))
    ensures forall t :: HalfHourAfter(t, Now(hour, minute)) ==> s <= t
  {
    if hour < 10 then Opening
    else if minute >= 30 then (hour + 1) * 60
    else hour * 60 + 30
  }

  /** The first slot of day i. */
  function DayStart(i: nat, hour: nat, minute: nat): (s: int)
    requires hour < 24 && minute < 60
    ensures i > 0 ==> s == Opening
    ensures s >= Opening
  {
    if i == 0 then TodayStart(hour, minute) else Opening
  }

  /** The `slots_booked` key of a date: `day_month_year` with the month counted from 1. */
  function DateKey(d: DayDate): string {
    NatToDecimal(d.day) + "_" + NatToDecimal(d.month0 + 1) + "_" + NatToDecimal(d.year)
  }

  /** Not booked: no list under the date's key, or a list without the displayed time. */
  predicate Free(booked: Js, key: string, time: string) {
    var v := Get(booked, key);
    !Truthy(v) || (v.Arr? && Str(time) !in v.items) || (v.Str? && !Contains(v.s, time)) || (!v.Arr? && !v.Str?)
  }

  /** Whether the mark m of the given date is free. */
  function FreeAt(booked: Js, date: DayDate, fmt: int -> string): int -> bool {
    m => Free(booked, DateKey(date), fmt(m))
  }

  /** Each listed slot is on the date, a free half-hour mark from `start` below `bound` and
      before closing, shown with its formatted time. */
  ghost predicate Sound(slots: seq<Slot>, date: DayDate, start: int, bound: int, free: int -> bool, fmt: int -> string) {
    forall k :: 0 <= k < |slots| ==>
      slots[k].date == date && start <= slots[k].minute < bound && slots[k].minute < Closing &&
      (slots[k].minute - start) % Step == 0 && slots[k].time == fmt(slots[k].minute) && free(slots[k].minute)
  }

  ghost predicate Increasing(slots: seq<Slot>) {
    forall k, l :: 0 <= k < l < |slots| ==> slots[k].minute < slots[l].minute
  }

  /** Every free half-hour mark from `start` below `bound` is listed. */
  ghost predicate Complete(slots: seq<Slot>, start: int, bound: int, free: int -> bool) {
    forall m :: start <= m < bound && (m - start) % Step == 0 && free(m) ==>
      exists k :: 0 <= k < |slots| && slots[k].minute == m
  }

  /** The slots of one day below `bound`. */
  ghost predicate Upto(slots: seq<Slot>, date: DayDate, start: int, bound: int, free: int -> bool, fmt: int -> string) {
    Sound(slots, date, start, bound, free, fmt) && Increasing(slots) && Complete(slots, start, bound, free)
  }

  /** The whole day: every slot before closing. */
  ghost predicate DayOk(slots: seq<Slot>, date: DayDate, start: int, booked: Js, fmt: int -> string) {
    Upto(slots, date, start, Closing, FreeAt(booked, date, fmt), fmt)
  }

  /** Two half-hour marks from the same start less than half an hour apart coincide. */
  lemma MarksApart(start: int, cur: int, m: int)
    requires (m - start) % Step == 0 && (cur - start) % Step == 0 && cur <= m < cur + Step
    ensures m == cur
  {
    var a := (m - start) / Step;
    var b := (cur - start) / Step;
    assert m - start == a * Step && cur - start == b * Step;
    assert a * Step - b * Step < Step && a * Step - b * Step >= 0;
    assert (a - b) * Step < Step;
  }

  lemma NextMark(start: int, cur: int)
    requires (cur - start) % Step == 0
    ensures (cur + Step - start) % Step == 0
  {
  }

  lemma CompleteStep(slots: seq<Slot>, next: seq<Slot>, start: int, cur: int, free: int -> bool)
    requires (cur - start) % Step == 0 && slots <= next
    requires Complete(slots, start, cur, free)
    requires free(cur) ==> exists k :: 0 <= k < |next| && next[k].minute == cur
    ensures Complete(next, start, cur + Step, free)
  {
    forall m | start <= m < cur + Step && (m - start) % Step == 0 && free(m)
      ensures exists k :: 0 <= k < |next| && next[k].minute == m
    {
      if m < cur {
        var k :| 0 <= k < |slots| && slots[k].minute == m;
        assert next[k] == slots[k];
      } else {
        MarksApart(start, cur, m);
      }
    }
  }

  lemma SoundStep(slots: seq<Slot>, date: DayDate, start: int, cur: int, free: int -> bool, fmt: int -> string)
    requires Sound(slots, date, start, cur, free, fmt) && start <= cur < Closing && (cur - start) % Step == 0
    ensures Sound(slots, date, start, cur + Step, free, fmt)
    ensures free(cur) ==> Sound(slots + [Slot(date, cur, fmt(cur))], date, start, cur + Step, free, fmt)
  {
  }

  lemma IncreasingStep(slots: seq<Slot>, date: DayDate, start: int, cur: int, free: int -> bool, fmt: int -> string)
    requires Sound(slots, date, start, cur, free, fmt) && Increasing(slots)
    ensures Increasing(slots + [Slot(date, cur, fmt(cur))])
  {
  }

  /** One turn of the loop: the mark `cur` is listed when it is free. */
  lemma UptoStep(slots: seq<Slot>, date: DayDate, start: int, cur: int, free: int -> bool, fmt: int -> string)
    requires Upto(slots, date, start, cur, free, fmt) && start <= cur < Closing && (cur - start) % Step == 0
    ensures var next := if free(cur) then slots + [Slot(date, cur, fmt(cur))] else slots;
      Upto(next, date, start, cur + Step, free, fmt)
  {
    SoundStep(slots, date, start, cur, free, fmt);
    if free(cur) {
      var next := slots + [Slot(date, cur, fmt(cur))];
      assert next[|slots|].minute == cur;
      IncreasingStep(slots, date, start, cur, free, fmt);
      CompleteStep(slots, next, start, cur, free);
    } else {
      CompleteStep(slots, slots, start, cur, free);
    }
  }

  /** Past closing, the slots below the bound are those of the whole day. */
  lemma UptoDone(slots: seq<Slot>, date: DayDate, start: int, cur: int, free: int -> bool, fmt: int -> string)
    requires Upto(slots, date, start, cur, free, fmt) && cur >= Closing
    ensures Upto(slots, date, start, Closing, free, fmt)
  {
  }

  /** The `while (currentSlotTime < endTime)` loop of one day. */
  method DaySlots(date: DayDate, start: int, booked: Js, fmt: int -> string) returns (slots: seq<Slot>)
    ensures DayOk(slots, date, start, booked, fmt)
    ensures start >= Closing ==> slots == []
  {
    var free := FreeAt(booked, date, fmt);
    slots := [];
    var cur := start;
    while cur < Closing
      invariant start <= cur && (cur - start) % Step == 0
      invariant Upto(slots, date, start, cur, free, fmt)
      invariant start >= Closing ==> slots == []
      decreases Closing - cur
    {
      UptoStep(slots, date, start, cur, free, fmt);
      NextMark(start, cur);
      var time := fmt(cur);
      if Free(booked, DateKey(date), time) {
        slots := slots + [Slot(date, cur, time)];
      }
      cur := cur + Step;
    }
    UptoDone(slots, date, start, cur, free, fmt);
  }

  /** `getAvailableSolts`: nothing is produced without doctor data; otherwise seven day lists. */
  method AvailableSlots(hasDoctor: bool, dates: nat -> DayDate, hour: nat, minute: nat, booked: Js, fmt: int -> string)
    returns (r: Option<seq<seq<Slot>>>)
    requires hour < 24 && minute < 60
    ensures r.None? <==> !hasDoctor
    ensures r.Some? ==> |r.value| == DaysShown
    ensures r.Some? ==> forall i :: 0 <= i < DaysShown ==> DayOk(r.value[i], dates(i), DayStart(i, hour, minute), booked, fmt)
    ensures r.Some? ==> forall i :: 0 <= i < DaysShown && DayStart(i, hour, minute) >= Closing ==> r.value[i] == []
  {
    if !hasDoctor {
      return None;
    }
    var all: seq<seq<Slot>> := [];
    for i := 0 to DaysShown
      invariant |all| == i
      invariant forall j :: 0 <= j < i ==> DayOk(all[j], dates(j), DayStart(j, hour, minute), booked, fmt)
      invariant forall j :: 0 <= j < i && DayStart(j, hour, minute) >= Closing ==> all[j] == []
    {
      var start := DayStart(i, hour, minute);
      if start >= Closing {
        all := all + [[]];
      } else {
        var day := DaySlots(dates(i), start, booked, fmt);
        all := all + [day];
      }
    }
    r := Some(all);
  }

  /** A slot already booked under its date's key is never offered. */
  lemma BookedNotOffered(slots: seq<Slot>, date: DayDate, start: int, booked: Js, fmt: int -> string, t: string)
    requires DayOk(slots, date, start, booked, fmt)
    requires Get(booked, DateKey(date)).Arr? && Str(t) in Get(booked, DateKey(date)).items
    ensures forall k :: 0 <= k < |slots| ==> slots[k].time != t
  {
    forall k | 0 <= k < |slots| ensures slots[k].time != t {
      assert FreeAt(booked, date, fmt)(slots[k].minute);
    }
  }

  /** Every offered slot lies strictly before 21:00, and future days begin at 10:00. */
  lemma SlotsWithinHours(slots: seq<Slot>, date: DayDate, i: nat, hour: nat, minute: nat, booked: Js, fmt: int -> string)
    requires hour < 24 && minute < 60
    requires DayOk(slots, date, DayStart(i, hour, minute), booked, fmt)
    ensures forall k :: 0 <= k < |slots| ==> Opening <= slots[k].minute < Closing
    ensures i > 0 && slots != [] && Free(booked, DateKey(date), fmt(Opening)) ==> slots[0].minute == Opening
  {
    if i > 0 && slots != [] && Free(booked, DateKey(date), fmt(Opening)) {
      assert FreeAt(booked, date, fmt)(Opening);
      var k :| 0 <= k < |slots| && slots[k].minute == Opening;
    }
  }

  /** The outcome of pressing "Book": to the login page, a warning, a request, or a failure when
      the selected day has no slot (reading `docSlots[slotIndex][0]` throws). */
  datatype BookAction = ToLogin | PickSlot | Send(slotDate: string, slotTime: string) | Throws

  function Book(token: Js, slotTime: string, docSlots: seq<seq<Slot>>, slotIndex: int): (b: BookAction)
    ensures !Truthy(token) <==> b == ToLogin
    ensures Truthy(token) && slotTime == "" ==> b == PickSlot
    ensures b.Send? <==> Truthy(token) && slotTime != "" && 0 <= slotIndex < |docSlots| && docSlots[slotIndex] != []
    ensures b.Send? ==> b.slotTime == slotTime && b.slotDate == DateKey(docSlots[slotIndex][0].date)
  {
    if !Truthy(token) then ToLogin
    else if slotTime == "" then PickSlot
    else if 0 <= slotIndex < |docSlots| && docSlots[slotIndex] != [] then
      Send(DateKey(docSlots[slotIndex][0].date), slotTime)
    else Throws
  }

  /** The date key splits back into day, month (from 1) and year. */
  lemma DateKeyParts(d: DayDate)
    ensures Split(DateKey(d), {'_'}) == [NatToDecimal(d.day), NatToDecimal(d.month0 + 1), NatToDecimal(d.year)]
  {
    DigitsSeparatorFree(NatToDecimal(d.day));
    DigitsSeparatorFree(NatToDecimal(d.month0 + 1));
    DigitsSeparatorFree(NatToDecimal(d.year));
    SplitThree(NatToDecimal(d.day), NatToDecimal(d.month0 + 1), NatToDecimal(d.year), '_', '_', {'_'});
  }

  lemma DigitsSeparatorFree(s: string)
    requires AllDigits(s)
    ensures NoneIn(s, {'_'})
  {
  }
}
