/** The doctor's view of one attachment's segmentation result
    (admin/src/pages/Doctor/AttachmentAnalysis.jsx): reading the report, the summary and findings
    built from it, and the choice of overlay image. `JSON.parse` is the parameter `parse` and
    number formatting the parameters `f` and `fixed` (for `toFixed(2)`). */
module AttachmentAnalysis {
  import opened JsValues

  // ---------------------------------------------------------------- parseReport

  /** `parseReport`: nothing for a falsy value, an object as it is, a string through `JSON.parse`
      (nothing when that throws); any other value is what `JSON.parse` gives back for its text. */
  function ParseReport(raw: Js, parse: string -> Option<Js>): (r: Js)
    ensures !Truthy(raw) ==> r == Null
    ensures Truthy(raw) && !raw.Str? ==> r == raw
    ensures Truthy(raw) && raw.Str? ==> (r == Null && parse(raw.s).None?) || parse(raw.s) == Some(r)
  {
    if !Truthy(raw) then Null
    else if TypeOf(raw) == "object" then raw
    else if raw.Str? then (match parse(raw.s) case Some(v) => v case None => Null)
    else raw
  }

  /** A report stored as its JSON text reads as the same object as the report itself. */
  lemma TextAndObjectAgree(s: string, v: Js, parse: string -> Option<Js>)
    requires s != "" && parse(s) == Some(v) && v.Obj?
    ensures ParseReport(Str(s), parse) == ParseReport(v, parse) == v
  {
  }

  // ---------------------------------------------------------------- numbers and `>`

  /** `Number(x || 0)`; None is NaN. */
  function NumberOr0(v: Js): (n: Option<real>)
    ensures !Truthy(v) ==> n == Some(0.0)
  {
    ToNumber(Or(v, Num(0.0)))
  }

  /** A number as a template literal prints it. */
  function NumText(x: Option<real>, f: Formatters): string {
    if x.Some? then f.num(x.value) else "NaN"
  }

  /** A number kept in the findings; NaN travels as `null`, as JSON writes it. */
  function Stored(x: Option<real>): Js {
    if x.Some? then Num(x.value) else Null
  }

  /** Code-unit order of strings. */
  predicate StrLess(a: string, b: string) {
    if a == [] then b != []
    else if b == [] then false
    else if a[0] != b[0] then a[0] < b[0]
    else StrLess(a[1..], b[1..])
  }

  /** `a > b`: two strings compare by code units, anything else as numbers, NaN comparing false. */
  predicate Gt(a: Js, b: Js) {
    if a.Str? && b.Str? then StrLess(b.s, a.s)
    else
      var x := ToNumber(a);
      var y := ToNumber(b);
      x.Some? && y.Some? && x.value > y.value
  }

  // ---------------------------------------------------------------- the largest region

  /** `max.pixel_count || 0` */
  function PixelsOf(m: Js): Js {
    Or(Get(m, "pixel_count"), Num(0.0))
  }

  /** `regions.reduce((max, r) => r.pixel_count > (max.pixel_count || 0) ? r : max, acc)`;
      None when a `null` or `undefined` entry makes `r.pixel_count` throw. */
  function Largest(acc: Js, rs: seq<Js>): Option<Js>
    decreases |rs|
  {
    if rs == [] then Some(acc)
    else if rs[0] == Null || rs[0] == Undef then None
    else Largest(if Gt(Get(rs[0], "pixel_count"), PixelsOf(acc)) then rs[0] else acc, rs[1..])
  }

  /** A region object with a numeric pixel count, as the segmentation report writes them. */
  predicate Counted(r: Js) {
    r.Obj? && Get(r, "pixel_count").Num?
  }

  function Pixels(r: Js): real
    requires Counted(r)
  {
    Get(r, "pixel_count").n
  }

  /** rs[j] has the largest count and every earlier region a smaller one. */
  predicate FirstMax(rs: seq<Js>, j: int)
    requires 0 <= j < |rs| && forall i :: 0 <= i < |rs| ==> Counted(rs[i])
  {
    (forall i :: 0 <= i < |rs| ==> Pixels(rs[i]) <= Pixels(rs[j])) &&
    (forall i :: 0 <= i < j ==> Pixels(rs[i]) < Pixels(rs[j]))
  }

  /** Starting from a region worth v, the reduction keeps it unless some region counts more, and
      then ends at the first region with the largest count. */
  lemma {:induction false} LargestFrom(acc: Js, v: real, rs: seq<Js>)
    requires v >= 0.0 && ToNumber(PixelsOf(acc)) == Some(v)
    requires forall i :: 0 <= i < |rs| ==> Counted(rs[i])
    ensures Largest(acc, rs).Some?
    ensures (forall i :: 0 <= i < |rs| ==> Pixels(rs[i]) <= v) ==> Largest(acc, rs) == Some(acc)
    ensures (exists i :: 0 <= i < |rs| && Pixels(rs[i]) > v) ==>
      exists j :: 0 <= j < |rs| && Largest(acc, rs) == Some(rs[j]) && Pixels(rs[j]) > v && FirstMax(rs, j)
    decreases |rs|
  {
    if rs != [] {
      var rest := rs[1..];
      assert forall i :: 0 <= i < |rest| ==> rest[i] == rs[i + 1];
      if Pixels(rs[0]) > v {
        LargestTakes(acc, v, rs);
      } else {
        LargestKeeps(acc, v, rs);
      }
    }
  }

  /** The first region counts more than the seed: it becomes the seed. */
  lemma {:induction false} LargestTakes(acc: Js, v: real, rs: seq<Js>)
    requires v >= 0.0 && ToNumber(PixelsOf(acc)) == Some(v)
    requires rs != [] && forall i :: 0 <= i < |rs| ==> Counted(rs[i])
    requires Pixels(rs[0]) > v
    ensures exists j :: 0 <= j < |rs| && Largest(acc, rs) == Some(rs[j]) && Pixels(rs[j]) > v && FirstMax(rs, j)
    decreases |rs|, 0
  {
    var r := rs[0];
    var rest := rs[1..];
    assert forall i :: 0 <= i < |rest| ==> rest[i] == rs[i + 1];
    var p := Pixels(r);
    assert Gt(Get(r, "pixel_count"), PixelsOf(acc));
    assert Largest(acc, rs) == Largest(r, rest);
    assert PixelsOf(r) == Num(p);
    LargestFrom(r, p, rest);
    if exists i :: 0 <= i < |rest| && Pixels(rest[i]) > p {
      var j :| 0 <= j < |rest| && Largest(r, rest) == Some(rest[j]) && Pixels(rest[j]) > p && FirstMax(rest, j);
      assert FirstMax(rs, j + 1);
    } else {
      assert FirstMax(rs, 0);
    }
  }

  /** The first region counts no more than the seed: the seed stays. */
  lemma {:induction false} LargestKeeps(acc: Js, v: real, rs: seq<Js>)
    requires v >= 0.0 && ToNumber(PixelsOf(acc)) == Some(v)
    requires rs != [] && forall i :: 0 <= i < |rs| ==> Counted(rs[i])
    requires Pixels(rs[0]) <= v
    ensures Largest(acc, rs).Some?
    ensures (forall i :: 0 <= i < |rs| ==> Pixels(rs[i]) <= v) ==> Largest(acc, rs) == Some(acc)
    ensures (exists i :: 0 <= i < |rs| && Pixels(rs[i]) > v) ==>
      exists j :: 0 <= j < |rs| && Largest(acc, rs) == Some(rs[j]) && Pixels(rs[j]) > v && FirstMax(rs, j)
    decreases |rs|, 0
  {
    var rest := rs[1..];
    assert forall i :: 0 <= i < |rest| ==> rest[i] == rs[i + 1];
    assert !Gt(Get(rs[0], "pixel_count"), PixelsOf(acc));
    assert Largest(acc, rs) == Largest(acc, rest);
    LargestFrom(acc, v, rest);
    if exists i :: 0 <= i < |rs| && Pixels(rs[i]) > v {
      var j :| 0 <= j < |rest| && Largest(acc, rest) == Some(rest[j]) && Pixels(rest[j]) > v && FirstMax(rest, j);
      assert FirstMax(rs, j + 1);
    }
  }

  /** The largest region is the first region with the largest pixel count; when no count is
      positive the reduction answers its seed `{}`. */
  lemma LargestRegion(rs: seq<Js>)
    requires forall i :: 0 <= i < |rs| ==> Counted(rs[i])
    ensures Largest(Obj([]), rs).Some?
    ensures (forall i :: 0 <= i < |rs| ==> Pixels(rs[i]) <= 0.0) ==> Largest(Obj([]), rs) == Some(Obj([]))
    ensures (exists i :: 0 <= i < |rs| && Pixels(rs[i]) > 0.0) ==>
      exists j :: 0 <= j < |rs| && Largest(Obj([]), rs) == Some(rs[j]) && FirstMax(rs, j)
  {
    assert PixelsOf(Obj([])) == Num(0.0);
    LargestFrom(Obj([]), 0.0, rs);
  }

  // ---------------------------------------------------------------- label order

  /** `Number(key)` as the sort compares it; a key that is not a number ranks as 0. */
  function LabelValue(k: string): real {
    match StrToNumber(k)
    case Some(x) => x
    case None => 0.0
  }

  predicate SortedBy(v: string -> real, ks: seq<string>) {
    forall i, j :: 0 <= i < j < |ks| ==> v(ks[i]) <= v(ks[j])
  }

  /** Inserts k before the first key that is not smaller, so keys of equal value keep their order. */
  function InsertBy(v: string -> real, k: string, ks: seq<string>): seq<string> {
    if ks == [] || v(k) <= v(ks[0]) then [k] + ks
    else [ks[0]] + InsertBy(v, k, ks[1..])
  }

  lemma {:induction false} InsertPermutes(v: string -> real, k: string, ks: seq<string>)
    ensures multiset(InsertBy(v, k, ks)) == multiset(ks) + multiset{k}
  {
    if ks != [] && v(k) > v(ks[0]) {
      InsertPermutes(v, k, ks[1..]);
      assert ks == [ks[0]] + ks[1..];
    }
  }

  lemma {:induction false} InsertSorted(v: string -> real, k: string, ks: seq<string>)
    requires SortedBy(v, ks)
    ensures SortedBy(v, InsertBy(v, k, ks))
  {
    if ks != [] && v(k) > v(ks[0]) {
      InsertSorted(v, k, ks[1..]);
      var rest := InsertBy(v, k, ks[1..]);
      InsertPermutes(v, k, ks[1..]);
      forall x | x in rest ensures v(ks[0]) <= v(x) {
        assert x in multiset(rest);
        if x != k {
          assert x in multiset(ks[1..]);
          var i :| 0 <= i < |ks[1..]| && ks[1..][i] == x;
          assert ks[i + 1] == x;
        }
      }
      assert forall j :: 0 < j < |[ks[0]] + rest| ==> ([ks[0]] + rest)[j] == rest[j - 1];
    }
  }

  function SortBy(v: string -> real, ks: seq<string>): (r: seq<string>)
    ensures multiset(r) == multiset(ks)
  {
    if ks == [] then []
    else
      InsertPermutes(v, ks[0], SortBy(v, ks[1..]));
      assert ks == [ks[0]] + ks[1..];
      InsertBy(v, ks[0], SortBy(v, ks[1..]))
  }

  lemma {:induction false} SortBySorted(v: string -> real, ks: seq<string>)
    ensures SortedBy(v, SortBy(v, ks))
  {
    if ks != [] {
      SortBySorted(v, ks[1..]);
      InsertSorted(v, ks[0], SortBy(v, ks[1..]));
    }
  }

  /** `Object.keys(analysis).sort((a, b) => Number(a) - Number(b))` */
  function SortLabels(ks: seq<string>): (r: seq<string>)
    ensures multiset(r) == multiset(ks)
  {
    SortBy(LabelValue, ks)
  }

  /** The labels are visited in ascending numeric order, each key once for each time it is listed. */
  lemma SortLabelsSorted(ks: seq<string>)
    ensures SortedBy(LabelValue, SortLabels(ks))
    ensures forall k :: k in SortLabels(ks) <==> k in ks
  {
    SortBySorted(LabelValue, ks);
    var r := SortLabels(ks);
    forall k ensures k in r <==> k in ks {
      assert k in r <==> k in multiset(r);
      assert k in ks <==> k in multiset(ks);
    }
  }

  // ---------------------------------------------------------------- one label

  /** The figures read from one label's entry. `largest` is `null` without a region list, and
      None when the reduction throws. */
  datatype ClassFigures = ClassFigures(cov: Option<real>, regions: Option<real>, largest: Option<Js>)

  function FiguresOf(info: Js): ClassFigures {
    var rs := Get(info, "regions");
    ClassFigures(
      NumberOr0(Get(info, "coverage_percent")),
      NumberOr0(Get(info, "num_regions")),
      if rs.Arr? && |rs.items| > 0 then Largest(Obj([]), rs.items) else Some(Null))
  }

  const Substantial := "substantial coverage"
  const ManyRegions := "many small regions"

  /** The thresholds: coverage of at least 5 percent, at least 20 regions (NaN meets neither). */
  function Flags(c: ClassFigures): (flags: seq<string>)
    ensures Substantial in flags <==> c.cov.Some? && c.cov.value >= 5.0
    ensures ManyRegions in flags <==> c.regions.Some? && c.regions.value >= 20.0
    ensures flags == [] <==> !(c.cov.Some? && c.cov.value >= 5.0) && !(c.regions.Some? && c.regions.value >= 20.0)
  {
    (if c.cov.Some? && c.cov.value >= 5.0 then [Substantial] else []) +
    (if c.regions.Some? && c.regions.value >= 20.0 then [ManyRegions] else [])
  }

  function StrArr(ss: seq<string>): (r: Js)
    ensures r.Arr? && |r.items| == |ss| && forall i :: 0 <= i < |ss| ==> r.items[i] == Str(ss[i])
  {
    Arr(seq(|ss|, i requires 0 <= i < |ss| => Str(ss[i])))
  }

  /** `findings["class_<k>"]` */
  function Entry(c: ClassFigures): Js
    requires c.largest.Some?
  {
    Obj([Field("coverage_percent", Stored(c.cov)), Field("num_regions", Stored(c.regions)),
         Field("largest_region", Or(c.largest.value, Null))])
  }

  /** The short text of one label. */
  function ClassLine(k: string, c: ClassFigures, f: Formatters, fixed: real -> string): (line: string)
    requires c.largest.Some?
    ensures "Class " + k + ": " <= line
    ensures Flags(c) != [] ==> line[|line| - 1] == ')'
  {
    var largest := c.largest.value;
    var flags := Flags(c);
    "Class " + k + ": " + (if c.cov.Some? then fixed(c.cov.value) else "NaN") + "% coverage, " +
    NumText(c.regions, f) + " region" + (if c.regions == Some(1.0) then "" else "s") +
    (if Truthy(largest) then ", largest ~" + ToStr(Get(largest, "pixel_count"), f) + " px" else "") +
    (if flags != [] then " (" + Join(flags, ", ") + ")" else "")
  }

  /** The findings and label lines gathered so far. */
  datatype Acc = Acc(findings: seq<Field>, lines: seq<string>)

  function ClassKey(k: string): string { "class_" + k }
  function FlagsKey(k: string): string { "class_" + k + "_flags" }

  /** One turn of the `forEach` over the label keys; None when it throws. */
  function LabelStep(acc: Acc, analysis: Js, k: string, f: Formatters, fixed: real -> string): Option<Acc> {
    var info := Get(analysis, k);
    if !Truthy(info) then Some(acc)
    else
      var c := FiguresOf(info);
      if c.largest.None? then None
      else
        var flags := Flags(c);
        var fs := if flags != [] then Put(acc.findings, FlagsKey(k), StrArr(flags)) else acc.findings;
        Some(Acc(Put(fs, ClassKey(k), Entry(c)), acc.lines + [ClassLine(k, c, f, fixed)]))
  }

  /** The `forEach` over `keys`, in order. */
  function Labels(init: Acc, analysis: Js, keys: seq<string>, f: Formatters, fixed: real -> string): Option<Acc>
    decreases |keys|
  {
    if keys == [] then Some(init)
    else
      match Labels(init, analysis, keys[..|keys| - 1], f, fixed)
      case None => None
      case Some(acc) => LabelStep(acc, analysis, keys[|keys| - 1], f, fixed)
  }

  /** One more key adds one turn of the loop. */
  lemma LabelsSnoc(init: Acc, analysis: Js, keys: seq<string>, i: nat, f: Formatters, fixed: real -> string)
    requires i < |keys|
    ensures Labels(init, analysis, keys[..i + 1], f, fixed) ==
      match Labels(init, analysis, keys[..i], f, fixed)
      case None => None
      case Some(acc) => LabelStep(acc, analysis, keys[i], f, fixed)
  {
    assert keys[..i + 1][..i] == keys[..i];
  }

  // ---------------------------------------------------------------- suggestions

  const CoverageNote := "Significant abnormal coverage in one or more classes \U{2014} correlate with clinical exam."
  const LesionsNote := "Multiple small lesions detected \U{2014} consider close inspection of flagged areas."

  /** `labelKeys.some(...)` for each threshold. Every key counts, also one whose entry the loop skips. */
  function Suggestions(analysis: Js, keys: seq<string>): (s: seq<string>)
    ensures CoverageNote in s <==> exists i :: 0 <= i < |keys| && Substantial in Flags(FiguresOf(Get(analysis, keys[i])))
    ensures LesionsNote in s <==> exists i :: 0 <= i < |keys| && ManyRegions in Flags(FiguresOf(Get(analysis, keys[i])))
    ensures s == [] <==> forall i :: 0 <= i < |keys| ==> Flags(FiguresOf(Get(analysis, keys[i]))) == []
  {
    var any := FindIndex(keys, k => Substantial in Flags(FiguresOf(Get(analysis, k))));
    var many := FindIndex(keys, k => ManyRegions in Flags(FiguresOf(Get(analysis, k))));
    (if any >= 0 then [CoverageNote] else []) + (if many >= 0 then [LesionsNote] else [])
  }

  // ---------------------------------------------------------------- generateSummaryFromReport

  datatype Summary = Summary(text: string, findings: Js)

  const NoReport := Summary("No report content", Obj([]))

  /** `analysis || {}` and its keys in the order the loop visits them. */
  function AnalysisOf(report: Js): Js {
    Or(Get(report, "analysis"), Obj([]))
  }

  function LabelKeys(report: Js): seq<string> {
    var analysis := AnalysisOf(report);
    SortLabels(if analysis.Obj? then Keys(analysis.fields) else [])
  }

  /** The lines and findings before the label loop. */
  function Header(report: Js, f: Formatters): Acc {
    var gen := Get(report, "generated_at");
    var ms := Get(report, "mask_shape");
    var nl := Get(report, "num_labels");
    var shape := Truthy(ms) && ms.Arr?;
    Acc(
      if shape then [Field("mask_shape", ms)] else [],
      (if Truthy(gen) then ["Generated: " + ToStr(gen, f)] else []) +
      (if shape then ["Mask size: " + ToStr(Item(ms, 1), f) + "\U{00D7}" + ToStr(Item(ms, 0), f) + " px"] else []) +
      (if nl != Undef then ["Classes detected: " + ToStr(nl, f)] else []))
  }

  /** `a[i]` of an array, undefined past its end. */
  function Item(a: Js, i: nat): Js
    requires a.Arr?
  {
    if i < |a.items| then a.items[i] else Undef
  }

  /** The findings after the label loop: the threshold note, then the suggestions. */
  function FinalFindings(report: Js, labels: seq<Field>, sugg: seq<string>): seq<Field> {
    var fs := Thresholded(report, labels);
    if sugg != [] then Put(fs, "suggestions", StrArr(sugg)) else fs
  }

  /** The findings with the report's threshold copied in when it has one. */
  function Thresholded(report: Js, labels: seq<Field>): seq<Field> {
    var notes := Get(report, "notes");
    if Truthy(notes) && Truthy(Get(notes, "threshold")) then Put(labels, "threshold", Get(notes, "threshold")) else labels
  }

  /** The summary lines joined by bullets. */
  function FinalText(head: Acc, labels: Acc, sugg: seq<string>): string {
    var lines := head.lines +
      (if labels.lines != [] then ["Key class summaries:", Join(labels.lines, "; ")] else []) +
      (if sugg != [] then ["Clinical note: " + Join(sugg, " ")] else []);
    Join(lines, "  \U{2022}  ")
  }

  /** What follows the label loop. */
  function Finish(report: Js, head: Acc, labels: Acc, sugg: seq<string>): Summary {
    Summary(FinalText(head, labels, sugg), Obj(FinalFindings(report, labels.findings, sugg)))
  }

  /** The summary of a truthy report from its header, its analysis object and the visiting
      order of its label keys; None when the label loop throws. */
  function SummaryFrom(report: Js, head: Acc, analysis: Js, keys: seq<string>, f: Formatters, fixed: real -> string): Option<Summary> {
    match Labels(Acc(head.findings, []), analysis, keys, f, fixed)
    case None => None
    case Some(labels) => Some(Finish(report, head, labels, Suggestions(analysis, keys)))
  }

  /** `generateSummaryFromReport`; None when it throws. */
  function SummaryOf(report: Js, f: Formatters, fixed: real -> string): Option<Summary> {
    if !Truthy(report) then Some(NoReport)
    else SummaryFrom(report, Header(report, f), AnalysisOf(report), LabelKeys(report), f, fixed)
  }

  /** The `forEach` over the label keys. */
  method VisitLabels(init: Acc, analysis: Js, keys: seq<string>, f: Formatters, fixed: real -> string) returns (r: Option<Acc>)
    ensures r == Labels(init, analysis, keys, f, fixed)
  {
    var acc := init;
    var i := 0;
    while i < |keys|
      invariant 0 <= i <= |keys|
      invariant Labels(init, analysis, keys[..i], f, fixed) == Some(acc)
    {
      LabelsSnoc(init, analysis, keys, i, f, fixed);
      var next := VisitLabel(acc, analysis, keys[i], f, fixed);
      if next.None? {
        ThrownStays(init, analysis, keys, i + 1, f, fixed);
        return None;
      }
      acc := next.value;
      i := i + 1;
    }
    assert keys[..|keys|] == keys;
    r := Some(acc);
  }

  /** The callback of the `forEach` for the label key k; None when the region list makes it throw. */
  method VisitLabel(acc: Acc, analysis: Js, k: string, f: Formatters, fixed: real -> string) returns (r: Option<Acc>)
    ensures r == LabelStep(acc, analysis, k, f, fixed)
  {
    var info := Get(analysis, k);
    if !Truthy(info) {
      return Some(acc);
    }
    var c := FiguresOf(info);
    if c.largest.None? {
      return None;
    }
    var flags := Flags(c);
    var findings := acc.findings;
    if flags != [] {
      findings := Put(findings, FlagsKey(k), StrArr(flags));
    }
    findings := Put(findings, ClassKey(k), Entry(c));
    r := Some(Acc(findings, acc.lines + [ClassLine(k, c, f, fixed)]));
  }

  /** `generateSummaryFromReport` */
  method GenerateSummary(report: Js, f: Formatters, fixed: real -> string) returns (r: Option<Summary>)
    ensures r == SummaryOf(report, f, fixed)
    ensures !Truthy(report) ==> r == Some(NoReport)
  {
    if !Truthy(report) {
      return Some(NoReport);
    }
    var head := Header(report, f);
    var analysis := AnalysisOf(report);
    var keys := LabelKeys(report);
    var labels := VisitLabels(Acc(head.findings, []), analysis, keys, f, fixed);
    if labels.None? {
      return None;
    }
    r := Some(Finish(report, head, labels.value, Suggestions(analysis, keys)));
  }

  /** After the loop, only the threshold and the suggestions are added to the findings. */
  lemma FinishFindings(report: Js, labels: seq<Field>, sugg: seq<string>, key: string)
    requires key != "threshold" && key != "suggestions"
    ensures Lookup(FinalFindings(report, labels, sugg), key) == Lookup(labels, key)
  {
    var fs := Thresholded(report, labels);
    assert Lookup(fs, key) == Lookup(labels, key);
    assert FinalFindings(report, labels, sugg) == if sugg != [] then Put(fs, "suggestions", StrArr(sugg)) else fs;
  }

  lemma FinishSuggestions(report: Js, labels: seq<Field>, sugg: seq<string>)
    ensures sugg != [] ==> Lookup(FinalFindings(report, labels, sugg), "suggestions") == StrArr(sugg)
    ensures sugg == [] ==> Lookup(FinalFindings(report, labels, sugg), "suggestions") == Lookup(labels, "suggestions")
  {
    var fs := Thresholded(report, labels);
    assert Lookup(fs, "suggestions") == Lookup(labels, "suggestions");
    assert FinalFindings(report, labels, sugg) == if sugg != [] then Put(fs, "suggestions", StrArr(sugg)) else fs;
  }

  /** Once a turn throws, the loop has thrown. */
  lemma {:induction false} ThrownStays(init: Acc, analysis: Js, keys: seq<string>, i: int, f: Formatters, fixed: real -> string)
    requires 0 <= i <= |keys| && Labels(init, analysis, keys[..i], f, fixed).None?
    ensures Labels(init, analysis, keys, f, fixed).None?
    decreases |keys|
  {
    if i == |keys| {
      assert keys[..i] == keys;
    } else {
      var front := keys[..|keys| - 1];
      assert front[..i] == keys[..i];
      ThrownStays(init, analysis, front, i, f, fixed);
    }
  }

  // ---------------------------------------------------------------- what the findings hold

  predicate Numeral(k: string) {
    k != "" && AllDigits(k)
  }

  /** Label k's findings: its entry, and its flags exactly when it has some. */
  predicate Recorded(fs: seq<Field>, analysis: Js, k: string) {
    var c := FiguresOf(Get(analysis, k));
    c.largest.Some? &&
    Lookup(fs, ClassKey(k)) == Entry(c) &&
    (Flags(c) != [] ==> Lookup(fs, FlagsKey(k)) == StrArr(Flags(c))) &&
    (Flags(c) == [] ==> Lookup(fs, FlagsKey(k)) == Undef)
  }

  lemma ClassKeysDiffer(a: string, b: string)
    requires Numeral(a) && Numeral(b)
    ensures a != b ==> ClassKey(a) != ClassKey(b) && FlagsKey(a) != FlagsKey(b)
    ensures ClassKey(a) != FlagsKey(b) && FlagsKey(a) != ClassKey(b)
  {
    if ClassKey(a) == ClassKey(b) {
      assert a == ClassKey(a)[6..] == ClassKey(b)[6..] == b;
    }
    if FlagsKey(a) == FlagsKey(b) {
      assert |a| == |b|;
      assert a == FlagsKey(a)[6..6 + |a|];
      assert b == FlagsKey(b)[6..6 + |b|];
    }
    assert FlagsKey(b)[6 + |b|] == '_' && FlagsKey(a)[6 + |a|] == '_';
    assert forall i :: 6 <= i < |ClassKey(a)| ==> ClassKey(a)[i] == a[i - 6];
    assert forall i :: 6 <= i < |ClassKey(b)| ==> ClassKey(b)[i] == b[i - 6];
  }

  /** A turn for label k writes only k's two keys. */
  lemma StepLeaves(acc: Acc, analysis: Js, k: string, key: string, f: Formatters, fixed: real -> string)
    requires key != ClassKey(k) && key != FlagsKey(k)
    requires LabelStep(acc, analysis, k, f, fixed).Some?
    ensures Lookup(LabelStep(acc, analysis, k, f, fixed).value.findings, key) == Lookup(acc.findings, key)
  {
  }

  /** A turn for label k leaves the findings of every other numeral label as they were. */
  lemma StepKeepsOthers(acc: Acc, analysis: Js, k: string, j: string, f: Formatters, fixed: real -> string)
    requires Numeral(k) && Numeral(j) && k != j
    requires LabelStep(acc, analysis, k, f, fixed).Some?
    ensures var fs := LabelStep(acc, analysis, k, f, fixed).value.findings;
      Lookup(fs, ClassKey(j)) == Lookup(acc.findings, ClassKey(j)) &&
      Lookup(fs, FlagsKey(j)) == Lookup(acc.findings, FlagsKey(j))
  {
    ClassKeysDiffer(k, j);
    StepLeaves(acc, analysis, k, ClassKey(j), f, fixed);
    StepLeaves(acc, analysis, k, FlagsKey(j), f, fixed);
  }

  /** A turn for label k records it, when its entry is truthy. */
  lemma StepRecords(acc: Acc, analysis: Js, k: string, f: Formatters, fixed: real -> string)
    requires Numeral(k) && Truthy(Get(analysis, k))
    requires LabelStep(acc, analysis, k, f, fixed).Some?
    requires Lookup(acc.findings, FlagsKey(k)) == Undef || Recorded(acc.findings, analysis, k)
    ensures Recorded(LabelStep(acc, analysis, k, f, fixed).value.findings, analysis, k)
  {
    ClassKeysDiffer(k, k);
  }

  /** After the loop every numeral label with a truthy entry is recorded, and a label without
      one has no findings, when the findings started without label keys. */
  lemma {:induction false} LabelsRecord(init: Acc, analysis: Js, keys: seq<string>, f: Formatters, fixed: real -> string, k: string)
    requires forall i :: 0 <= i < |keys| ==> Numeral(keys[i])
    requires Numeral(k)
    requires Lookup(init.findings, ClassKey(k)) == Undef && Lookup(init.findings, FlagsKey(k)) == Undef
    requires Labels(init, analysis, keys, f, fixed).Some?
    ensures var fs := Labels(init, analysis, keys, f, fixed).value.findings;
      (k in keys && Truthy(Get(analysis, k)) ==> Recorded(fs, analysis, k)) &&
      (!(k in keys && Truthy(Get(analysis, k))) ==> Lookup(fs, ClassKey(k)) == Undef && Lookup(fs, FlagsKey(k)) == Undef)
    decreases |keys|
  {
    if keys != [] {
      var front := keys[..|keys| - 1];
      var last := keys[|keys| - 1];
      assert forall i :: 0 <= i < |front| ==> front[i] == keys[i];
      var acc := Labels(init, analysis, front, f, fixed).value;
      LabelsRecord(init, analysis, front, f, fixed, k);
      assert keys == front + [last];
      if last == k {
        if Truthy(Get(analysis, k)) {
          StepRecords(acc, analysis, k, f, fixed);
        }
      } else {
        StepKeepsOthers(acc, analysis, last, k, f, fixed);
      }
    }
  }

  lemma OtherKeysDiffer(k: string)
    ensures ClassKey(k) != "threshold" && ClassKey(k) != "suggestions" && ClassKey(k) != "mask_shape"
    ensures FlagsKey(k) != "threshold" && FlagsKey(k) != "suggestions" && FlagsKey(k) != "mask_shape"
  {
    assert ClassKey(k)[0] == 'c' && FlagsKey(k)[0] == 'c';
  }

  /** The findings the loop and the finishing steps leave for numeral label keys. */
  lemma FinalRecords(report: Js, init: Acc, analysis: Js, keys: seq<string>, labels: Acc, sugg: seq<string>,
                     f: Formatters, fixed: real -> string, k: string)
    requires forall i :: 0 <= i < |keys| ==> Numeral(keys[i])
    requires Numeral(k)
    requires Lookup(init.findings, ClassKey(k)) == Undef && Lookup(init.findings, FlagsKey(k)) == Undef
    requires Labels(init, analysis, keys, f, fixed) == Some(labels)
    ensures var fs := FinalFindings(report, labels.findings, sugg);
      (k in keys && Truthy(Get(analysis, k)) ==> Recorded(fs, analysis, k)) &&
      (!(k in keys && Truthy(Get(analysis, k))) ==> Lookup(fs, ClassKey(k)) == Undef && Lookup(fs, FlagsKey(k)) == Undef)
  {
    OtherKeysDiffer(k);
    LabelsRecord(init, analysis, keys, f, fixed, k);
    FinishFindings(report, labels.findings, sugg, ClassKey(k));
    FinishFindings(report, labels.findings, sugg, FlagsKey(k));
  }

  /** The finished findings when the label keys are numerals and the header holds no label
      key: every label with a truthy entry has its entry, and its flags exactly when it meets a
      threshold; every other label has neither. */
  lemma FindingsPerLabelFrom(report: Js, head: Acc, analysis: Js, keys: seq<string>, f: Formatters, fixed: real -> string, k: string)
    requires Numeral(k) && forall i :: 0 <= i < |keys| ==> Numeral(keys[i])
    requires Lookup(head.findings, ClassKey(k)) == Undef && Lookup(head.findings, FlagsKey(k)) == Undef
    requires SummaryFrom(report, head, analysis, keys, f, fixed).Some?
    ensures var fs := SummaryFrom(report, head, analysis, keys, f, fixed).value.findings;
      fs.Obj? &&
      (k in keys && Truthy(Get(analysis, k)) ==> Recorded(fs.fields, analysis, k)) &&
      (!(k in keys && Truthy(Get(analysis, k))) ==> Lookup(fs.fields, ClassKey(k)) == Undef && Lookup(fs.fields, FlagsKey(k)) == Undef)
  {
    var labels := Labels(Acc(head.findings, []), analysis, keys, f, fixed).value;
    FinalRecords(report, Acc(head.findings, []), analysis, keys, labels, Suggestions(analysis, keys), f, fixed, k);
  }

  /** The same for a whole report. */
  lemma FindingsPerLabel(report: Js, f: Formatters, fixed: real -> string, k: string)
    requires Truthy(report) && Numeral(k)
    requires forall i :: 0 <= i < |LabelKeys(report)| ==> Numeral(LabelKeys(report)[i])
    requires SummaryOf(report, f, fixed).Some?
    ensures var fs := SummaryOf(report, f, fixed).value.findings;
      var analysis := AnalysisOf(report);
      fs.Obj? &&
      (k in LabelKeys(report) && Truthy(Get(analysis, k)) ==> Recorded(fs.fields, analysis, k)) &&
      (!(k in LabelKeys(report) && Truthy(Get(analysis, k))) ==>
        Lookup(fs.fields, ClassKey(k)) == Undef && Lookup(fs.fields, FlagsKey(k)) == Undef)
  {
    HeaderHasNoLabel(report, f, k);
    FindingsPerLabelFrom(report, Header(report, f), AnalysisOf(report), LabelKeys(report), f, fixed, k);
  }

  /** The header writes no label key. */
  lemma HeaderHasNoLabel(report: Js, f: Formatters, k: string)
    ensures Lookup(Header(report, f).findings, ClassKey(k)) == Undef
    ensures Lookup(Header(report, f).findings, FlagsKey(k)) == Undef
  {
    OtherKeysDiffer(k);
  }

  /** The suggestions are stored exactly when some label meets a threshold. */
  lemma SuggestionsStoredFrom(report: Js, head: Acc, analysis: Js, keys: seq<string>, f: Formatters, fixed: real -> string)
    requires Lookup(head.findings, "suggestions") == Undef
    requires SummaryFrom(report, head, analysis, keys, f, fixed).Some?
    ensures var fs := SummaryFrom(report, head, analysis, keys, f, fixed).value.findings;
      var s := Suggestions(analysis, keys);
      fs.Obj? &&
      (s != [] ==> Lookup(fs.fields, "suggestions") == StrArr(s)) &&
      (s == [] ==> Lookup(fs.fields, "suggestions") == Undef)
  {
    var labels := Labels(Acc(head.findings, []), analysis, keys, f, fixed).value;
    FinishSuggestions(report, labels.findings, Suggestions(analysis, keys));
    LabelsHaveNoSuggestions(Acc(head.findings, []), analysis, keys, f, fixed);
  }

  /** The same for a whole report. */
  lemma SuggestionsStored(report: Js, f: Formatters, fixed: real -> string)
    requires Truthy(report) && SummaryOf(report, f, fixed).Some?
    ensures var fs := SummaryOf(report, f, fixed).value.findings;
      var s := Suggestions(AnalysisOf(report), LabelKeys(report));
      fs.Obj? &&
      (s != [] ==> Lookup(fs.fields, "suggestions") == StrArr(s)) &&
      (s == [] ==> Lookup(fs.fields, "suggestions") == Undef)
  {
    SuggestionsStoredFrom(report, Header(report, f), AnalysisOf(report), LabelKeys(report), f, fixed);
  }

  /** The label loop writes only label keys. */
  lemma {:induction false} LabelsHaveNoSuggestions(init: Acc, analysis: Js, keys: seq<string>, f: Formatters, fixed: real -> string)
    requires Lookup(init.findings, "suggestions") == Undef
    requires Labels(init, analysis, keys, f, fixed).Some?
    ensures Lookup(Labels(init, analysis, keys, f, fixed).value.findings, "suggestions") == Undef
    decreases |keys|
  {
    if keys != [] {
      var front := keys[..|keys| - 1];
      LabelsHaveNoSuggestions(init, analysis, front, f, fixed);
      OtherKeysDiffer(keys[|keys| - 1]);
      StepLeaves(Labels(init, analysis, front, f, fixed).value, analysis, keys[|keys| - 1], "suggestions", f, fixed);
    }
  }

  // ---------------------------------------------------------------- the overlay image

  predicate Absolute(u: string) {
    StartsWith(u, "http://") || StartsWith(u, "https://") || StartsWith(u, "data:")
  }

  /** The base a leading-`/` path is put after: the backend address without its trailing slash,
      or the page's origin when there is none. */
  function Base(backendUrl: string, origin: string): string {
    if backendUrl != "" then StripTrailingSlash(backendUrl) else origin
  }

  /** `normalizeUrl`: nothing for a falsy value; absolute and data URLs as they are; a path from
      the root after the base; anything else as it is. None when `u` is not a string and
      `startsWith` throws. */
  function NormalizeUrl(u: Js, backendUrl: string, origin: string): (r: Option<Js>)
    ensures !Truthy(u) ==> r == Some(Null)
    ensures Truthy(u) && !u.Str? ==> r.None?
    ensures u.Str? && Absolute(u.s) ==> r == Some(u)
    ensures u.Str? && !Absolute(u.s) && StartsWith(u.s, "/") ==> r == Some(Str(Base(backendUrl, origin) + u.s))
    ensures u.Str? && u.s != "" && !Absolute(u.s) && !StartsWith(u.s, "/") ==> r == Some(u)
  {
    if !Truthy(u) then Some(Null)
    else if !u.Str? then None
    else if Absolute(u.s) then Some(u)
    else if StartsWith(u.s, "/") then Some(Str(Base(backendUrl, origin) + u.s))
    else Some(u)
  }

  /** With an absolute backend address (or origin), a path from the root becomes absolute. */
  lemma RootPathBecomesAbsolute(backendUrl: string, origin: string, p: string)
    requires StartsWith(p, "/")
    requires backendUrl != "" ==> StartsWith(backendUrl, "http://") || StartsWith(backendUrl, "https://")
    requires backendUrl == "" ==> StartsWith(origin, "http://") || StartsWith(origin, "https://")
    ensures Absolute(Base(backendUrl, origin) + p)
  {
    var b := if backendUrl != "" then backendUrl else origin;
    var x := Base(backendUrl, origin) + p;
    if backendUrl != "" && backendUrl[|backendUrl| - 1] == '/' {
      assert x == backendUrl[..|backendUrl| - 1] + p;
      assert x[..|backendUrl|] == backendUrl by {
        assert p[0] == '/';
      }
    } else {
      assert x[..|b|] == b;
    }
  }

  /** Normalizing twice changes nothing more, when the base is absolute. */
  lemma NormalizeIdempotent(u: Js, backendUrl: string, origin: string)
    requires backendUrl != "" ==> StartsWith(backendUrl, "http://") || StartsWith(backendUrl, "https://")
    requires backendUrl == "" ==> StartsWith(origin, "http://") || StartsWith(origin, "https://")
    requires NormalizeUrl(u, backendUrl, origin).Some?
    ensures NormalizeUrl(NormalizeUrl(u, backendUrl, origin).value, backendUrl, origin) == NormalizeUrl(u, backendUrl, origin)
  {
    if u.Str? && u.s != "" && !Absolute(u.s) && StartsWith(u.s, "/") {
      RootPathBecomesAbsolute(backendUrl, origin, u.s);
    }
  }

  /** `getOverlaySrc`: the overlay kept in memory, else the analysis's saved overlay, else the
      attachment's saved overlay, each normalized; `null` when there is none. */
  function OverlaySrc(inMemory: Js, aiAnalysis: Js, attachment: Js, backendUrl: string, origin: string): (r: Option<Js>)
    ensures Truthy(Get(inMemory, "overlay")) ==> r == Some(Get(inMemory, "overlay"))
    ensures !Truthy(Get(inMemory, "overlay")) && Truthy(Get(Get(aiAnalysis, "urls"), "overlay")) ==>
      r == NormalizeUrl(Get(Get(aiAnalysis, "urls"), "overlay"), backendUrl, origin)
    ensures !Truthy(Get(inMemory, "overlay")) && !Truthy(Get(Get(aiAnalysis, "urls"), "overlay")) ==>
      r == NormalizeUrl(Get(Get(Get(attachment, "aiAnalysis"), "urls"), "overlay"), backendUrl, origin)
  {
    var mem := Get(inMemory, "overlay");
    var saved := Get(Get(aiAnalysis, "urls"), "overlay");
    var stored := Get(Get(Get(attachment, "aiAnalysis"), "urls"), "overlay");
    if Truthy(mem) then Some(mem)
    else if Truthy(saved) then NormalizeUrl(saved, backendUrl, origin)
    else if Truthy(stored) then NormalizeUrl(stored, backendUrl, origin)
    else Some(Null)
  }
}
