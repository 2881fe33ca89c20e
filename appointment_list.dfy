/** The doctor's appointment list page (admin/src/pages/Doctor/DoctorAppointments.jsx): scheduled
    time of an appointment, newest-first ordering, search and pagination. Date parsing is the
    parameter `parse` (None stands for an invalid date); date formatting is `fmtDate`. */
module AppointmentList {
  import opened JsValues
  import opened Appointments

  /** A listed appointment with the two fields of the listing that the record type does not hold. */
  datatype Row = Row(appt: Appointment, id: string, createdAt: Js)

  // ---------------------------------------------------------------- scheduled time

  /** The separators of `split(/[-\/.]/)`. */
  const DateSeps: set<char> := {'-', '/', '.'}

  /** The parts of a slot date, each trimmed. */
  function DateParts(slotDate: string): (ps: seq<string>)
    ensures |ps| == |Split(slotDate, DateSeps)|
    ensures forall i :: 0 <= i < |ps| ==> ps[i] == Trim(Split(slotDate, DateSeps)[i])
  {
    var raw := Split(slotDate, DateSeps);
    seq(|raw|, i requires 0 <= i < |raw| => Trim(raw[i]))
  }

  /** The year-first form of three date parts: kept in order when the first part has four
      characters, reversed otherwise. */
  function IsoOfParts(ps: seq<string>): string
    requires |ps| == 3
  {
    if |ps[0]| == 4 then ps[0] + "-" + ps[1] + "-" + ps[2] else ps[2] + "-" + ps[1] + "-" + ps[0]
  }

  /** The reordered slot date; None when the date does not have three parts. */
  function IsoDate(slotDate: string): Option<string> {
    var ps := DateParts(slotDate);
    if |ps| == 3 then Some(IsoOfParts(ps)) else None
  }

  lemma PartsHaveNoSeparator(slotDate: string)
    ensures forall i :: 0 <= i < |DateParts(slotDate)| ==> NoneIn(DateParts(slotDate)[i], DateSeps)
  {
    var raw := Split(slotDate, DateSeps);
    forall i | 0 <= i < |raw| ensures NoneIn(DateParts(slotDate)[i], DateSeps) {
      TrimChars(raw[i]);
      assert forall j :: 0 <= j < |raw[i]| ==> raw[i][j] !in DateSeps;
    }
  }

  lemma IsoOfPartsSplits(ps: seq<string>)
    requires |ps| == 3 && NoneIn(ps[0], DateSeps) && NoneIn(ps[1], DateSeps) && NoneIn(ps[2], DateSeps)
    ensures Split(IsoOfParts(ps), DateSeps) == if |ps[0]| == 4 then ps else [ps[2], ps[1], ps[0]]
  {
    if |ps[0]| == 4 {
      assert IsoOfParts(ps) == ps[0] + ['-'] + ps[1] + ['-'] + ps[2];
      SplitThree(ps[0], ps[1], ps[2], '-', '-', DateSeps);
      assert [ps[0], ps[1], ps[2]] == ps;
    } else {
      assert IsoOfParts(ps) == ps[2] + ['-'] + ps[1] + ['-'] + ps[0];
      SplitThree(ps[2], ps[1], ps[0], '-', '-', DateSeps);
    }
  }

  /** The reordered date splits back into the trimmed parts, year-first: in their own order when
      the first part has four characters and reversed otherwise. */
  lemma IsoDateParts(slotDate: string)
    requires |DateParts(slotDate)| == 3
    ensures var ps := DateParts(slotDate);
      IsoDate(slotDate) == Some(IsoOfParts(ps)) &&
      Split(IsoOfParts(ps), DateSeps) == (if |ps[0]| == 4 then ps else [ps[2], ps[1], ps[0]])
  {
    var ps := DateParts(slotDate);
    PartsHaveNoSeparator(slotDate);
    assert NoneIn(ps[0], DateSeps) && NoneIn(ps[1], DateSeps) && NoneIn(ps[2], DateSeps);
    IsoOfPartsSplits(ps);
  }

  /** A parsed time in milliseconds, or minus infinity for an appointment without a valid time. */
  datatype Time = NegInf | At(ms: int)

  /** `tryParse`: empty is no date; a failed parse is retried with '-' replaced by '/'. */
  function TryParse(parse: Js -> Option<int>, v: Js): (r: Option<int>)
    ensures !Truthy(v) ==> r == None
    ensures Truthy(v) && parse(v).Some? ==> r == parse(v)
    ensures Truthy(v) && parse(v).None? && v.Str? ==> r == parse(Str(ReplaceChar(v.s, '-', '/')))
  {
    if !Truthy(v) then None
    else if parse(v).Some? then parse(v)
    else if v.Str? then parse(Str(ReplaceChar(v.s, '-', '/')))
    else None
  }

  function WithTime(d: string, slotTime: Option<string>): string {
    if slotTime.Some? && slotTime.value != "" then d + " " + slotTime.value else d
  }

  /** `getAppointmentDate` followed by the `-Infinity` default: the slot date with its time, then the
      reordered slot date with its time, then `date`. */
  function Scheduled(parse: Js -> Option<int>, a: Appointment): Time {
    var first :=
      if a.slotDate.Some? && a.slotDate.value != "" then
        var p1 := TryParse(parse, Str(WithTime(a.slotDate.value, a.slotTime)));
        if p1.Some? then p1
        else
          var iso := IsoDate(a.slotDate.value);
          if iso.Some? then TryParse(parse, Str(WithTime(iso.value, a.slotTime))) else None
      else None;
    if first.Some? then At(first.value)
    else
      var p := TryParse(parse, a.date);
      if p.Some? then At(p.value) else NegInf
  }

  /** A scheduled time comes from the slot date (as stored, or reordered year-first) or from
      `date`, in that order of preference; minus infinity means none of them parses. */
  lemma ScheduledSources(parse: Js -> Option<int>, a: Appointment)
    ensures var t := Scheduled(parse, a);
      var slot := a.slotDate.Some? && a.slotDate.value != "";
      var p1 := if slot then TryParse(parse, Str(WithTime(a.slotDate.value, a.slotTime))) else None;
      var p2 := if slot && IsoDate(a.slotDate.value).Some? then
        TryParse(parse, Str(WithTime(IsoDate(a.slotDate.value).value, a.slotTime))) else None;
      (p1.Some? ==> t == At(p1.value)) &&
      (p1.None? && p2.Some? ==> t == At(p2.value)) &&
      (p1.None? && p2.None? ==> t == (if TryParse(parse, a.date).Some? then At(TryParse(parse, a.date).value) else NegInf))
  {
  }

  /** The tie-break `new Date(date || createdAt || 0).getTime() || 0`. */
  function TieBreak(parse: Js -> Option<int>, r: Row): int {
    var p := parse(Or(r.appt.date, Or(r.createdAt, Num(0.0))));
    if p.Some? then p.value else 0
  }

  // ---------------------------------------------------------------- newest first

  /** The sort key of a row: its scheduled time, then the tie-break. */
  datatype Key = Key(time: Time, tie: int)

  function RowKey(parse: Js -> Option<int>, r: Row): Key {
    Key(Scheduled(parse, r.appt), TieBreak(parse, r))
  }

  predicate Later(x: Time, y: Time) {
    match (x, y)
    case (At(a), At(b)) => a > b
    case (At(_), NegInf) => true
    case _ => false
  }

  /** The comparator places a row with key x no later than one with key y: x's time is later, or
      the times are equal and x's tie-break is not smaller. */
  predicate Precedes(x: Key, y: Key) {
    Later(x.time, y.time) || (x.time == y.time && x.tie >= y.tie)
  }

  predicate SortedBy(key: Row -> Key, s: seq<Row>) {
    forall i, j :: 0 <= i < j < |s| ==> Precedes(key(s[i]), key(s[j]))
  }

  lemma PrecedesTotal(x: Key, y: Key)
    ensures Precedes(x, y) || Precedes(y, x)
  {
  }

  lemma PrecedesTransitive(x: Key, y: Key, z: Key)
    requires Precedes(x, y) && Precedes(y, z)
    ensures Precedes(x, z)
  {
  }

  /** Inserting x in front of the first element it precedes. */
  function InsertBy(key: Row -> Key, x: Row, s: seq<Row>): seq<Row> {
    if s == [] then [x]
    else if Precedes(key(x), key(s[0])) then [x] + s
    else [s[0]] + InsertBy(key, x, s[1..])
  }

  lemma {:induction false} InsertPermutes(key: Row -> Key, x: Row, s: seq<Row>)
    ensures multiset(InsertBy(key, x, s)) == multiset(s) + multiset{x}
  {
    if s != [] && !Precedes(key(x), key(s[0])) {
      InsertPermutes(key, x, s[1..]);
      assert s == [s[0]] + s[1..];
    }
  }

  /** Every element of the insertion result is x or an element of s. */
  lemma InsertElements(key: Row -> Key, x: Row, s: seq<Row>, y: Row)
    requires y in InsertBy(key, x, s)
    ensures y == x || y in s
  {
    InsertPermutes(key, x, s);
    assert y in multiset(InsertBy(key, x, s));
  }

  lemma {:induction false} InsertSorted(key: Row -> Key, x: Row, s: seq<Row>)
    requires SortedBy(key, s)
    ensures SortedBy(key, InsertBy(key, x, s))
  {
    if s == [] {
    } else if Precedes(key(x), key(s[0])) {
      var r := [x] + s;
      forall i, j | 0 <= i < j < |r| ensures Precedes(key(r[i]), key(r[j])) {
        if i == 0 && j > 1 {
          PrecedesTransitive(key(x), key(s[0]), key(s[j - 1]));
        }
      }
    } else {
      var rest := InsertBy(key, x, s[1..]);
      assert SortedBy(key, s[1..]);
      InsertSorted(key, x, s[1..]);
      PrecedesTotal(key(x), key(s[0]));
      var r := [s[0]] + rest;
      forall i, j | 0 <= i < j < |r| ensures Precedes(key(r[i]), key(r[j])) {
        if i == 0 {
          var y := rest[j - 1];
          InsertElements(key, x, s[1..], y);
          if y != x {
            var k :| 0 <= k < |s[1..]| && s[1..][k] == y;
            assert s[k + 1] == y;
          }
        } else {
          assert r[i] == rest[i - 1] && r[j] == rest[j - 1];
        }
      }
    }
  }

  /** A stable insertion sort by key. */
  function SortBy(key: Row -> Key, s: seq<Row>): (r: seq<Row>)
    ensures SortedBy(key, r)
    ensures multiset(r) == multiset(s)
  {
    if s == [] then []
    else
      var rest := SortBy(key, s[1..]);
      InsertSorted(key, s[0], rest);
      InsertPermutes(key, s[0], rest);
      assert s == [s[0]] + s[1..];
      InsertBy(key, s[0], rest)
  }

  predicate SortedNewestFirst(parse: Js -> Option<int>, s: seq<Row>) {
    forall i, j :: 0 <= i < j < |s| ==> Precedes(RowKey(parse, s[i]), RowKey(parse, s[j]))
  }

  /** The `sort` of the mapped rows with the comparator: newest first, a permutation of the list. */
  function SortNewestFirst(parse: Js -> Option<int>, s: seq<Row>): (r: seq<Row>)
    ensures multiset(r) == multiset(s)
  {
    SortBy(x => RowKey(parse, x), s)
  }

  /** The sorted list is newest first. */
  lemma SortedIsNewestFirst(parse: Js -> Option<int>, s: seq<Row>)
    ensures SortedNewestFirst(parse, SortNewestFirst(parse, s))
  {
    var key := x => RowKey(parse, x);
    var r := SortBy(key, s);
    assert SortedBy(key, r);
    forall i, j | 0 <= i < j < |r| ensures Precedes(RowKey(parse, r[i]), RowKey(parse, r[j])) {
      assert Precedes(key(r[i]), key(r[j]));
    }
  }

  /** An appointment without a valid time is placed after every appointment with one. */
  lemma UndatedLast(parse: Js -> Option<int>, s: seq<Row>, i: int, j: int)
    requires 0 <= i < |SortNewestFirst(parse, s)| && 0 <= j < |SortNewestFirst(parse, s)|
    requires RowKey(parse, SortNewestFirst(parse, s)[i]).time == NegInf
    requires RowKey(parse, SortNewestFirst(parse, s)[j]).time.At?
    ensures j < i
  {
    SortedIsNewestFirst(parse, s);
  }

  // ---------------------------------------------------------------- search

  /** The query: trimmed, then lower-cased. */
  function Query(term: Js): string {
    ToLower(Trim(if term.Str? then term.s else ""))
  }

  /** Some searched field of the row contains the query: patient name, formatted slot date, slot
      time, id or amount, all lower-cased. */
  predicate RowMatches(r: Row, q: string, fmtDate: string -> string, f: Formatters)
    ensures q == "" ==> RowMatches(r, q, fmtDate, f)
    ensures Includes(ToLower(r.id), q) ==> RowMatches(r, q, fmtDate, f)
  {
    var a := r.appt;
    var name := ToLower(ToStr(Or(Get(a.userData, "name"), Str("")), f));
    var date := if a.slotDate.Some? && a.slotDate.value != "" then ToLower(fmtDate(a.slotDate.value)) else "";
    var time := ToLower(if a.slotTime.Some? then a.slotTime.value else "");
    var amount := ToLower(if a.amount.Some? && a.amount.value != 0.0 then ToStr(Num(a.amount.value), f) else "");
    Includes(name, q) || Includes(date, q) || Includes(time, q) || Includes(ToLower(r.id), q) || Includes(amount, q)
  }

  /** The search over the sorted list. */
  function Search(sorted: seq<Row>, term: Js, fmtDate: string -> string, f: Formatters): (r: seq<Row>)
    ensures Query(term) == "" ==> r == sorted
    ensures Query(term) != "" ==>
      IsSubseq(r, sorted) && forall x :: x in r <==> x in sorted && RowMatches(x, Query(term), fmtDate, f)
  {
    var q := Query(term);
    if q == "" then sorted else Filter(sorted, x => RowMatches(x, q, fmtDate, f))
  }

  /** A blank query keeps the whole list. */
  lemma BlankQueryKeepsAll(sorted: seq<Row>, term: Js, fmtDate: string -> string, f: Formatters)
    requires term.Str? && AllSpace(term.s)
    ensures Search(sorted, term, fmtDate, f) == sorted
  {
    TrimEmptyIff(term.s);
  }

  // ---------------------------------------------------------------- pages of ten

  const PageSize := 10

  /** `Math.max(1, Math.ceil(n / PAGE_SIZE))`: the fewest pages of ten that hold n items, and at
      least one. */
  function TotalPages(n: nat): (t: nat)
    ensures t >= 1 && n <= t * PageSize
    ensures n > 0 ==> (t - 1) * PageSize < n
    ensures n == 0 ==> t == 1
  {
    if n == 0 then 1 else (n + PageSize - 1) / PageSize
  }

  /** The visible slice of page p (p counts from 1). */
  function PageOf<T>(s: seq<T>, p: nat): (r: seq<T>)
    requires p >= 1
    ensures |r| <= PageSize
    ensures (p - 1) * PageSize < |s| ==>
      r == s[(p - 1) * PageSize..if p * PageSize < |s| then p * PageSize else |s|]
    ensures (p - 1) * PageSize >= |s| ==> r == []
  {
    var start := (p - 1) * PageSize;
    var end := if start + PageSize < |s| then start + PageSize else |s|;
    if start < end then s[start..end] else []
  }

  /** The first k pages, one after another. */
  function FirstPages<T>(s: seq<T>, k: nat): seq<T> {
    if k == 0 then [] else FirstPages(s, k - 1) + PageOf(s, k)
  }

  /** Reading the pages 1 .. TotalPages in turn gives back exactly the list. */
  lemma {:induction false} PagesCoverList<T>(s: seq<T>)
    ensures FirstPages(s, TotalPages(|s|)) == s
  {
    FirstPagesPrefix(s, TotalPages(|s|));
    assert s[..|s|] == s;
  }

  lemma {:induction false} FirstPagesPrefix<T>(s: seq<T>, k: nat)
    ensures FirstPages(s, k) == s[..if k * PageSize < |s| then k * PageSize else |s|]
  {
    if k > 0 {
      FirstPagesPrefix(s, k - 1);
      var a := if (k - 1) * PageSize < |s| then (k - 1) * PageSize else |s|;
      var b := if k * PageSize < |s| then k * PageSize else |s|;
      assert s[..b] == s[..a] + s[a..b];
    }
  }

  /** Every page from 1 to TotalPages shows something when the list is not empty. */
  lemma ValidPageNotEmpty<T>(s: seq<T>, p: nat)
    requires |s| > 0 && 1 <= p <= TotalPages(|s|)
    ensures 0 < |PageOf(s, p)|
  {
  }

  /** The effect that moves the page down to the last page when the list shrinks. */
  function ClampPage(p: nat, n: nat): (q: nat)
    ensures q <= TotalPages(n)
    ensures p <= TotalPages(n) ==> q == p
    ensures p >= 1 ==> q >= 1
  {
    if p > TotalPages(n) then TotalPages(n) else p
  }

  /** Prev: `Math.max(1, p - 1)` */
  function PrevPage(p: nat): (q: nat)
    ensures q >= 1 && (p > 1 ==> q == p - 1)
  {
    if p > 1 then p - 1 else 1
  }

  /** Next: `Math.min(totalPages, p + 1)` */
  function NextPage(p: nat, n: nat): (q: nat)
    ensures q <= TotalPages(n) && (p < TotalPages(n) ==> q == p + 1)
  {
    if p + 1 < TotalPages(n) then p + 1 else TotalPages(n)
  }

  /** Prev and Next keep a page that is in range in range. */
  lemma PrevNextStayInRange(p: nat, n: nat)
    requires 1 <= p <= TotalPages(n)
    ensures 1 <= PrevPage(p) <= TotalPages(n)
    ensures 1 <= NextPage(p, n) <= TotalPages(n)
  {
  }

  /** The page's rows of the searched, sorted list. */
  function Visible(rows: seq<Row>, parse: Js -> Option<int>, term: Js, fmtDate: string -> string, f: Formatters, page: nat)
    : (r: seq<Row>)
    requires page >= 1
    ensures |r| <= PageSize
  {
    PageOf(Search(SortNewestFirst(parse, rows), term, fmtDate, f), page)
  }

  lemma PageElements<T>(s: seq<T>, p: nat, x: T)
    requires p >= 1 && x in PageOf(s, p)
    ensures x in s
  {
  }

  /** The page shows only listed appointments, and only ones that match a non-blank query. */
  lemma VisibleFromRows(rows: seq<Row>, parse: Js -> Option<int>, term: Js, fmtDate: string -> string, f: Formatters, page: nat, x: Row)
    requires page >= 1 && x in Visible(rows, parse, term, fmtDate, f, page)
    ensures x in rows
  {
    var sorted := SortNewestFirst(parse, rows);
    var found := Search(sorted, term, fmtDate, f);
    PageElements(found, page, x);
    assert x in multiset(sorted);
  }
}
