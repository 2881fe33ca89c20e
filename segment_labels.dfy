/** Label masks of the segmentation script: choosing a label per pixel from the model's score
    channels (`argmax_to_label_mask`), bringing the model output into height × width × channel order
    (`fix_mask_axes`), painting labels with a colour table (`colorize_label_mask`) and the per-label
    statistics (`analyze_labels`). Arrays are rectangular nested sequences with an explicit shape. */
module SegmentLabels {
  import opened SegmentRegions
  import JsValues

  /** numpy `uint8`. */
  type Byte = x: int | 0 <= x < 256

  datatype Result<T> = Ok(value: T) | Err(message: string)

  /** A numpy float array: 2-D, 3-D, or of another dimensionality whose contents do not matter here. */
  datatype NdArray =
    | Array2(h: nat, w: nat, v2: seq<seq<real>>)
    | Array3(d0: nat, d1: nat, d2: nat, v3: seq<seq<seq<real>>>)
    | ArrayN(ndim: nat)

  predicate Cube<T>(v: seq<seq<seq<T>>>, d0: nat, d1: nat, d2: nat) {
    |v| == d0 && forall i :: 0 <= i < d0 ==> |v[i]| == d1 && forall j :: 0 <= j < d1 ==> |v[i][j]| == d2
  }

  predicate Shaped(a: NdArray) {
    match a
    case Array2(h, w, v) => |v| == h && Rect(v, w)
    case Array3(d0, d1, d2, v) => Cube(v, d0, d1, d2)
    case ArrayN(n) => n != 2 && n != 3
  }

  // ---------------------------------------------------------------- fix_mask_axes

  /** The channel-first test: a small first axis followed by two larger ones. */
  predicate ChannelFirst(d0: nat, d1: nat, d2: nat) {
    d0 <= 32 && d1 > d0 && d2 > d0
  }

  /** `fix_mask_axes`: 2-D gains a channel axis of length 1, a channel-first 3-D array is transposed
      to channel-last, any other 3-D array is returned as is, and other ranks are an error. */
  function FixMaskAxes(a: NdArray): (r: Result<NdArray>)
    requires Shaped(a)
    ensures r.Ok? <==> !a.ArrayN?
    ensures r.Ok? ==> r.value.Array3? && Shaped(r.value)
    ensures a.Array2? ==> (r.value.d0 == a.h && r.value.d1 == a.w && r.value.d2 == 1 &&
      forall y, x :: 0 <= y < a.h && 0 <= x < a.w ==> r.value.v3[y][x][0] == a.v2[y][x])
    ensures a.Array3? && ChannelFirst(a.d0, a.d1, a.d2) ==> (
      r.value.d0 == a.d1 && r.value.d1 == a.d2 && r.value.d2 == a.d0 &&
      forall y, x, c :: 0 <= y < a.d1 && 0 <= x < a.d2 && 0 <= c < a.d0 ==> r.value.v3[y][x][c] == a.v3[c][y][x])
    ensures a.Array3? && !ChannelFirst(a.d0, a.d1, a.d2) ==> r == Ok(a)
  {
    match a
    case Array2(h, w, v) =>
      Ok(Array3(h, w, 1, seq(h, y requires 0 <= y < h => seq(w, x requires 0 <= x < w => [v[y][x]]))))
    case Array3(d0, d1, d2, v) =>
      if ChannelFirst(d0, d1, d2) then
        Ok(Array3(d1, d2, d0,
          seq(d1, y requires 0 <= y < d1 =>
            seq(d2, x requires 0 <= x < d2 =>
              seq(d0, c requires 0 <= c < d0 => v[c][y][x])))))
      else Ok(a)
    case ArrayN(n) => Err("Unsupported mask ndim: " + JsValues.NatToDecimal(n))
  }

  /** Fixing the axes twice changes nothing more, except for a 0 × W × 1 result, whose zero first
      axis makes it look channel-first again. */
  lemma FixMaskAxesIdempotent(a: NdArray)
    requires Shaped(a) && FixMaskAxes(a).Ok?
    requires !(a.Array2? && a.h == 0 && a.w > 0)
    ensures FixMaskAxes(FixMaskAxes(a).value) == FixMaskAxes(a)
  {
  }

  // ---------------------------------------------------------------- argmax_to_label_mask

  /** numpy `argmax` over one score vector: the first index of a maximal score. */
  function ArgMax(v: seq<real>): (r: nat)
    requires |v| > 0
    ensures r < |v|
    ensures forall i :: 0 <= i < |v| ==> v[i] <= v[r]
    ensures forall i :: 0 <= i < r ==> v[i] < v[r]
  {
    if |v| == 1 then 0
    else
      var r := ArgMax(v[..|v| - 1]);
      assert forall i :: 0 <= i < |v| - 1 ==> v[..|v| - 1][i] == v[i];
      if v[|v| - 1] > v[r] then |v| - 1 else r
  }

  /** `argmax_to_label_mask`: a 3-D score array of shape H × W × C gives an H × W label mask; one
      channel is thresholded at 0.5, several choose the first maximal channel, cast to uint8 (so
      modulo 256). A non-3-D array is an error, and so is C = 0 (numpy refuses the argmax of an
      empty axis). */
  function ArgmaxToLabelMask(a: NdArray): (r: Result<seq<seq<Byte>>>)
    requires Shaped(a)
    ensures r.Ok? <==> a.Array3? && a.d2 != 0
    ensures r.Ok? ==> |r.value| == a.d0 && Rect(r.value, a.d1)
  {
    match a
    case Array3(h, w, c, v) =>
      if c == 1 then Ok(seq(h, y requires 0 <= y < h => ThresholdRow(v[y], w)))
      else if c == 0 then Err("attempt to get argmax of an empty sequence")
      else Ok(seq(h, y requires 0 <= y < h => ArgmaxRow(v[y], w)))
    case _ => Err("mask3 must be HxWxC")
  }

  /** One row of the one-channel case: `(score > 0.5)` as uint8. */
  function ThresholdRow(row: seq<seq<real>>, w: nat): (r: seq<Byte>)
    requires |row| == w && forall x :: 0 <= x < w ==> |row[x]| >= 1
    ensures |r| == w
  {
    seq(w, x requires 0 <= x < w => if row[x][0] > 0.5 then 1 else 0)
  }

  /** One row of the several-channel case: the argmax channel cast to uint8. */
  function ArgmaxRow(row: seq<seq<real>>, w: nat): (r: seq<Byte>)
    requires |row| == w && forall x :: 0 <= x < w ==> |row[x]| >= 1
    ensures |r| == w
  {
    seq(w, x requires 0 <= x < w => ArgMax(row[x]) % 256)
  }

  /** With one channel every label is 0 or 1, and 1 exactly where the score exceeds 0.5. */
  lemma ThresholdLabels(a: NdArray, y: nat, x: nat)
    requires Shaped(a) && a.Array3? && a.d2 == 1 && y < a.d0 && x < a.d1
    ensures ArgmaxToLabelMask(a).value[y][x] == 1 <==> a.v3[y][x][0] > 0.5
    ensures ArgmaxToLabelMask(a).value[y][x] == 0 <==> !(a.v3[y][x][0] > 0.5)
  {
  }

  /** With 2 to 256 channels a label is a channel index holding a maximal score, and no earlier
      channel scores as high. */
  lemma ArgmaxLabels(a: NdArray, y: nat, x: nat)
    requires Shaped(a) && a.Array3? && 2 <= a.d2 <= 256 && y < a.d0 && x < a.d1
    ensures var l := ArgmaxToLabelMask(a).value[y][x];
      l < a.d2 &&
      (forall c :: 0 <= c < a.d2 ==> a.v3[y][x][c] <= a.v3[y][x][l]) &&
      (forall c :: 0 <= c < l ==> a.v3[y][x][c] < a.v3[y][x][l])
  {
    var r := ArgMax(a.v3[y][x]);
    assert ArgmaxToLabelMask(a).value[y][x] == r % 256 == r;
  }

  /** Beyond 256 channels the uint8 cast wraps: 257 channels whose last one scores highest give
      label 0. */
  lemma ArgmaxWraps()
    ensures var v := seq(257, c requires 0 <= c < 257 => if c == 256 then 1.0 else 0.0);
      ArgmaxToLabelMask(Array3(1, 1, 257, [[v]])) == Ok([[0]])
  {
    var v := seq(257, c requires 0 <= c < 257 => if c == 256 then 1.0 else 0.0);
    var r := ArgMax(v);
    assert v[256] == 1.0;
    assert forall c :: 0 <= c < 256 ==> v[c] == 0.0;
    var m := ArgmaxToLabelMask(Array3(1, 1, 257, [[v]])).value;
    assert m[0][0] == 0;
    assert m == [[0]] by {
      assert |m| == 1 && |m[0]| == 1;
      assert m[0] == [0];
    }
  }

  // ---------------------------------------------------------------- colorize_label_mask

  /** A colour-table entry after its float components have been scaled to uint8. */
  datatype Rgb = Rgb(r: Byte, g: Byte, b: Byte)

  function Channel(c: Rgb, k: nat): Byte
    requires k < 3
  {
    if k == 0 then c.r else if k == 1 then c.g else c.b
  }

  /** The colour a label receives: its table entry, or black past the end of the table. */
  function Paint(cmap: seq<Rgb>, l: Byte): Rgb {
    if l < |cmap| then cmap[l] else Rgb(0, 0, 0)
  }

  /** `colorize_label_mask`: starts from a black H × W × 3 image and, for each table entry i in turn,
      paints every pixel labelled i. */
  method ColorizeLabelMask(lbl: seq<seq<Byte>>, w: nat, cmap: seq<Rgb>) returns (out: array3<Byte>)
    requires Rect(lbl, w)
    ensures fresh(out)
    ensures out.Length0 == |lbl| && out.Length1 == w && out.Length2 == 3
    ensures forall y, x, k :: 0 <= y < |lbl| && 0 <= x < w && 0 <= k < 3 ==>
      out[y, x, k] == Channel(Paint(cmap, lbl[y][x]), k)
  {
    var h := |lbl|;
    out := new Byte[h, w, 3]((_, _, _) => 0);
    var i := 0;
    while i < |cmap|
      invariant 0 <= i <= |cmap|
      invariant forall y, x, k :: 0 <= y < h && 0 <= x < w && 0 <= k < 3 ==>
        out[y, x, k] == if lbl[y][x] < i then Channel(cmap[lbl[y][x]], k) else 0
    {
      PaintLabel(lbl, w, out, i, cmap[i]);
      i := i + 1;
    }
  }

  /** `out[lbl_mask == i] = rgb`. */
  method PaintLabel(lbl: seq<seq<Byte>>, w: nat, out: array3<Byte>, i: nat, rgb: Rgb)
    requires Rect(lbl, w) && out.Length0 == |lbl| && out.Length1 == w && out.Length2 == 3
    modifies out
    ensures forall y, x, k :: 0 <= y < |lbl| && 0 <= x < w && 0 <= k < 3 ==>
      out[y, x, k] == if lbl[y][x] == i then Channel(rgb, k) else old(out[y, x, k])
  {
    var y := 0;
    while y < |lbl|
      invariant 0 <= y <= |lbl|
      invariant forall y', x, k :: 0 <= y' < |lbl| && 0 <= x < w && 0 <= k < 3 ==>
        out[y', x, k] == if y' < y && lbl[y'][x] == i then Channel(rgb, k) else old(out[y', x, k])
    {
      var x := 0;
      while x < w
        invariant 0 <= x <= w
        invariant forall y', x', k :: 0 <= y' < |lbl| && 0 <= x' < w && 0 <= k < 3 ==>
          out[y', x', k] ==
            if (y' < y || (y' == y && x' < x)) && lbl[y'][x'] == i then Channel(rgb, k) else old(out[y', x', k])
      {
        if lbl[y][x] == i {
          out[y, x, 0] := rgb.r;
          out[y, x, 1] := rgb.g;
          out[y, x, 2] := rgb.b;
        }
        x := x + 1;
      }
      y := y + 1;
    }
  }

  /** With a table of distinct colours and labels inside it, the image determines the labels. */
  lemma PaintInjective(cmap: seq<Rgb>, l1: Byte, l2: Byte)
    requires forall i, j :: 0 <= i < j < |cmap| ==> cmap[i] != cmap[j]
    requires l1 < |cmap| && l2 < |cmap|
    ensures Paint(cmap, l1) == Paint(cmap, l2) ==> l1 == l2
  {
    if l1 < l2 {
      assert cmap[l1] != cmap[l2];
    } else if l2 < l1 {
      assert cmap[l2] != cmap[l1];
    }
  }

  // ---------------------------------------------------------------- analyze_labels

  /** The mask in row-major order. */
  function Flatten(lbl: seq<seq<Byte>>): seq<Byte> {
    if |lbl| == 0 then [] else lbl[0] + Flatten(lbl[1..])
  }

  lemma {:induction false} FlattenLength(lbl: seq<seq<Byte>>, w: nat)
    requires Rect(lbl, w)
    ensures |Flatten(lbl)| == |lbl| * w
  {
    if |lbl| > 0 {
      FlattenLength(lbl[1..], w);
    }
  }

  lemma {:induction false} FlattenMember(lbl: seq<seq<Byte>>, w: nat, v: Byte)
    requires Rect(lbl, w)
    ensures v in Flatten(lbl) <==> exists y, x :: 0 <= y < |lbl| && 0 <= x < w && lbl[y][x] == v
  {
    if |lbl| > 0 {
      FlattenMember(lbl[1..], w, v);
      if v in Flatten(lbl[1..]) {
        var y, x :| 0 <= y < |lbl| - 1 && 0 <= x < w && lbl[1..][y][x] == v;
        assert lbl[y + 1][x] == v;
      }
      if exists y, x :: 0 <= y < |lbl| && 0 <= x < w && lbl[y][x] == v {
        var y, x :| 0 <= y < |lbl| && 0 <= x < w && lbl[y][x] == v;
        if y > 0 {
          assert lbl[1..][y - 1][x] == v;
        } else {
          assert v in lbl[0];
        }
      }
    }
  }

  function Count(s: seq<Byte>, v: Byte): nat {
    if |s| == 0 then 0 else (if s[0] == v then 1 else 0) + Count(s[1..], v)
  }

  lemma {:induction false} CountAppend(s: seq<Byte>, t: seq<Byte>, v: Byte)
    ensures Count(s + t, v) == Count(s, v) + Count(t, v)
  {
    if |s| == 0 {
      assert s + t == t;
    } else {
      assert (s + t)[0] == s[0];
      assert (s + t)[1..] == s[1..] + t;
      CountAppend(s[1..], t, v);
    }
  }

  lemma {:induction false} CountPositive(s: seq<Byte>, v: Byte)
    ensures Count(s, v) > 0 <==> v in s
  {
    if |s| > 0 {
      CountPositive(s[1..], v);
    }
  }

  /** `lbl_mask == lbl`. */
  function EqMask(lbl: seq<seq<Byte>>, w: nat, v: Byte): (m: seq<seq<bool>>)
    requires Rect(lbl, w)
    ensures |m| == |lbl| && Rect(m, w)
    ensures forall y, x :: 0 <= y < |lbl| && 0 <= x < w ==> (m[y][x] <==> lbl[y][x] == v)
  {
    seq(|lbl|, y requires 0 <= y < |lbl| => seq(w, x requires 0 <= x < w => lbl[y][x] == v))
  }

  /** `mask.sum()` for the label v. */
  function PixelCount(lbl: seq<seq<Byte>>, v: Byte): nat {
    Count(Flatten(lbl), v)
  }

  /** `np.unique` of the mask from value v on: the present values, ascending. */
  function UniqueFrom(lbl: seq<seq<Byte>>, v: nat): (u: seq<Byte>)
    requires v <= 256
    ensures forall i, j :: 0 <= i < j < |u| ==> u[i] < u[j]
    ensures forall x: Byte :: x in u <==> v <= x && x in Flatten(lbl)
    decreases 256 - v
  {
    if v == 256 then []
    else
      var rest := UniqueFrom(lbl, v + 1);
      var u := (if v in Flatten(lbl) then [v as Byte] else []) + rest;
      assert forall i :: 0 <= i < |rest| ==> rest[i] in rest;
      u
  }

  function Unique(lbl: seq<seq<Byte>>): seq<Byte> {
    UniqueFrom(lbl, 0)
  }

  function SumCounts(u: seq<Byte>, s: seq<Byte>): nat {
    if |u| == 0 then 0 else Count(s, u[0]) + SumCounts(u[1..], s)
  }

  function Hits(u: seq<Byte>, a: Byte): nat {
    if |u| == 0 then 0 else (if u[0] == a then 1 else 0) + Hits(u[1..], a)
  }

  lemma {:induction false} HitsOnce(u: seq<Byte>, a: Byte)
    requires Distinct(u) && a in u
    ensures Hits(u, a) == 1
  {
    if u[0] == a {
      HitsNone(u[1..], a);
    } else {
      HitsOnce(u[1..], a);
    }
  }

  lemma {:induction false} HitsNone(u: seq<Byte>, a: Byte)
    requires a !in u
    ensures Hits(u, a) == 0
  {
    if |u| > 0 {
      HitsNone(u[1..], a);
    }
  }

  lemma {:induction false} SumCountsCons(u: seq<Byte>, a: Byte, t: seq<Byte>)
    ensures SumCounts(u, [a] + t) == Hits(u, a) + SumCounts(u, t)
  {
    if |u| > 0 {
      assert ([a] + t)[1..] == t;
      SumCountsCons(u[1..], a, t);
    }
  }

  /** Counting every value of a list over distinct keys that cover it counts each element once. */
  lemma {:induction false} SumCountsAll(u: seq<Byte>, s: seq<Byte>)
    requires Distinct(u) && forall x :: x in s ==> x in u
    ensures SumCounts(u, s) == |s|
  {
    if |s| == 0 {
      SumCountsEmpty(u, s);
    } else {
      assert s == [s[0]] + s[1..];
      SumCountsCons(u, s[0], s[1..]);
      HitsOnce(u, s[0]);
      SumCountsAll(u, s[1..]);
    }
  }

  lemma {:induction false} SumCountsEmpty(u: seq<Byte>, s: seq<Byte>)
    requires |s| == 0
    ensures SumCounts(u, s) == 0
  {
    if |u| > 0 {
      SumCountsEmpty(u[1..], s);
    }
  }

  /** The per-label pixel counts over the distinct labels add up to H·W. */
  lemma PixelCountsTotal(lbl: seq<seq<Byte>>, w: nat)
    requires Rect(lbl, w)
    ensures SumCounts(Unique(lbl), Flatten(lbl)) == |lbl| * w
  {
    var u := Unique(lbl);
    assert Distinct(u) by {
      forall i, j | 0 <= i < j < |u| ensures u[i] != u[j] {
        assert u[i] < u[j];
      }
    }
    SumCountsAll(u, Flatten(lbl));
    FlattenLength(lbl, w);
  }

  /** The length of `s[:m]` for a list of length n. */
  function SliceLen(n: nat, m: int): nat {
    if m >= 0 then (if m < n then m else n) else (if n + m > 0 then n + m else 0)
  }

  /** `regions[:max_regions]` with Python's slice rules (a negative bound counts from the end). */
  function SliceTo<T>(s: seq<T>, m: int): (r: seq<T>)
    ensures m >= 0 ==> r == s[..if m < |s| then m else |s|]
    ensures m < 0 ==> r == s[..if |s| + m > 0 then |s| + m else 0]
    ensures |r| == SliceLen(|s|, m)
  {
    if m >= 0 then s[..if m < |s| then m else |s|]
    else s[..if |s| + m > 0 then |s| + m else 0]
  }

  /** One entry of the result of `analyze_labels`. */
  datatype LabelInfo = LabelInfo(pixelCount: nat, coveragePercent: real, numRegions: nat, regions: seq<Region>)

  /** The box of a region lies inside the mask and is at least one pixel wide and high. */
  predicate BoxInGrid(r: Region, h: nat, w: nat) {
    1 <= r.bbox.width && 1 <= r.bbox.height &&
    0 <= r.bbox.x && r.bbox.x + r.bbox.width <= w &&
    0 <= r.bbox.y && r.bbox.y + r.bbox.height <= h
  }

  lemma RegionInGrid(mask: seq<seq<bool>>, w: nat, comp: seq<Coord>)
    requires Rect(mask, w) && IsComponent(mask, w, comp)
    ensures BoxInGrid(RegionOf(comp), |mask|, w) && RegionOf(comp).pixelCount >= 1
  {
    var r := RegionOf(comp);
    var i0 :| 0 <= i0 < |comp| && comp[i0].1 == r.bbox.x;
    var i1 :| 0 <= i1 < |comp| && comp[i1].1 == r.bbox.x + r.bbox.width - 1;
    var i2 :| 0 <= i2 < |comp| && comp[i2].0 == r.bbox.y;
    var i3 :| 0 <= i3 < |comp| && comp[i3].0 == r.bbox.y + r.bbox.height - 1;
    assert On(mask, w, comp[i0]) && On(mask, w, comp[i1]) && On(mask, w, comp[i2]) && On(mask, w, comp[i3]);
  }

  /** `analyze_labels(lbl_mask, max_regions)`: one entry per distinct label, in ascending order;
      `comps` gives, per entry, the pixels of each region found for that label. */
  method AnalyzeLabels(lbl: seq<seq<Byte>>, w: nat, maxRegions: int)
    returns (out: seq<(Byte, LabelInfo)>, ghost comps: seq<seq<seq<Coord>>>)
    requires Rect(lbl, w)
    ensures |out| == |Unique(lbl)| == |comps|
    ensures forall i :: 0 <= i < |out| ==> out[i].0 == Unique(lbl)[i]
    ensures forall i :: 0 <= i < |out| ==> LabelEntry(lbl, w, maxRegions, out[i].0, out[i].1, comps[i])
    ensures SumPixels(out) == |lbl| * w
  {
    var labels := Unique(lbl);
    out := [];
    comps := [];
    var i := 0;
    while i < |labels|
      invariant 0 <= i <= |labels|
      invariant |out| == i == |comps|
      invariant forall k :: 0 <= k < i ==> out[k].0 == labels[k]
      invariant Entries(lbl, w, maxRegions, out, comps)
    {
      out, comps := AnalyzeNext(lbl, w, maxRegions, labels[i], out, comps);
      i := i + 1;
    }
    EntriesAt(lbl, w, maxRegions, out, comps);
    EntriesCounts(lbl, w, maxRegions, out, comps);
    SumPixelsCounts(out, labels, Flatten(lbl));
    PixelCountsTotal(lbl, w);
  }

  /** One turn of the loop of `analyze_labels`: the entry of the label v is appended. */
  method AnalyzeNext(lbl: seq<seq<Byte>>, w: nat, maxRegions: int, v: Byte,
                     out: seq<(Byte, LabelInfo)>, ghost comps: seq<seq<seq<Coord>>>)
    returns (out': seq<(Byte, LabelInfo)>, ghost comps': seq<seq<seq<Coord>>>)
    requires Rect(lbl, w) && v in Unique(lbl) && Entries(lbl, w, maxRegions, out, comps)
    ensures |out'| == |out| + 1 == |comps'| && out'[..|out|] == out && out'[|out|].0 == v
    ensures Entries(lbl, w, maxRegions, out', comps')
  {
    var info, cs := AnalyzeLabel(lbl, w, maxRegions, v);
    EntriesSnoc(lbl, w, maxRegions, out, comps, v, info, cs);
    out', comps' := out + [(v, info)], comps + [cs];
  }

  /** Every entry so far is what `analyze_labels` records for its label. */
  ghost predicate Entries(lbl: seq<seq<Byte>>, w: nat, maxRegions: int, out: seq<(Byte, LabelInfo)>, comps: seq<seq<seq<Coord>>>)
    requires Rect(lbl, w)
    decreases |out|
  {
    |out| == |comps| &&
    (|out| > 0 ==>
      var n := |out| - 1;
      Entries(lbl, w, maxRegions, out[..n], comps[..n]) && LabelEntry(lbl, w, maxRegions, out[n].0, out[n].1, comps[n]))
  }

  lemma EntriesSnoc(lbl: seq<seq<Byte>>, w: nat, maxRegions: int, out: seq<(Byte, LabelInfo)>,
                    comps: seq<seq<seq<Coord>>>, v: Byte, info: LabelInfo, cs: seq<seq<Coord>>)
    requires Rect(lbl, w) && Entries(lbl, w, maxRegions, out, comps)
    requires LabelEntry(lbl, w, maxRegions, v, info, cs)
    ensures Entries(lbl, w, maxRegions, out + [(v, info)], comps + [cs])
  {
    assert (out + [(v, info)])[..|out|] == out;
    assert (comps + [cs])[..|comps|] == comps;
  }

  lemma {:induction false} EntriesAt(lbl: seq<seq<Byte>>, w: nat, maxRegions: int, out: seq<(Byte, LabelInfo)>, comps: seq<seq<seq<Coord>>>)
    requires Rect(lbl, w) && Entries(lbl, w, maxRegions, out, comps)
    ensures |out| == |comps|
    ensures forall k :: 0 <= k < |out| ==> LabelEntry(lbl, w, maxRegions, out[k].0, out[k].1, comps[k])
    decreases |out|
  {
    if |out| > 0 {
      var n := |out| - 1;
      EntriesAt(lbl, w, maxRegions, out[..n], comps[..n]);
      forall k | 0 <= k < n ensures LabelEntry(lbl, w, maxRegions, out[k].0, out[k].1, comps[k]) {
        assert out[..n][k] == out[k] && comps[..n][k] == comps[k];
      }
    }
  }

  lemma EntriesCounts(lbl: seq<seq<Byte>>, w: nat, maxRegions: int, out: seq<(Byte, LabelInfo)>, comps: seq<seq<seq<Coord>>>)
    requires Rect(lbl, w) && Entries(lbl, w, maxRegions, out, comps)
    ensures forall k :: 0 <= k < |out| ==> out[k].1.pixelCount == Count(Flatten(lbl), out[k].0)
  {
    EntriesAt(lbl, w, maxRegions, out, comps);
    forall k | 0 <= k < |out| ensures out[k].1.pixelCount == Count(Flatten(lbl), out[k].0) {
      assert LabelEntry(lbl, w, maxRegions, out[k].0, out[k].1, comps[k]);
    }
  }

  lemma {:induction false} SumPixelsCounts(out: seq<(Byte, LabelInfo)>, u: seq<Byte>, s: seq<Byte>)
    requires |out| == |u|
    requires forall k :: 0 <= k < |out| ==> out[k].1.pixelCount == Count(s, u[k])
    ensures SumPixels(out) == SumCounts(u, s)
  {
    if |out| > 0 {
      var n := |out| - 1;
      SumPixelsCounts(out[..n], u[..n], s);
      SumCountsSnoc(u[..n], u[n], s);
      assert u[..n] + [u[n]] == u;
    }
  }

  /** The body of the loop of `analyze_labels` for one present label v. */
  method AnalyzeLabel(lbl: seq<seq<Byte>>, w: nat, maxRegions: int, v: Byte) returns (info: LabelInfo, ghost comps: seq<seq<Coord>>)
    requires Rect(lbl, w) && v in Flatten(lbl)
    ensures LabelEntry(lbl, w, maxRegions, v, info, comps)
  {
    var h := |lbl|;
    var mask := EqMask(lbl, w, v);
    var pixelCount := PixelCount(lbl, v);
    CountPositive(Flatten(lbl), v);
    FlattenMember(lbl, w, v);
    FlattenLength(lbl, w);
    var coverage := 100.0 * pixelCount as real / (h * w) as real;
    var regions: seq<Region> := [];
    comps := [];
    if pixelCount > 0 {
      regions, comps := ConnectedComponentsBboxes(mask, w, maxRegions);
    }
    assert Decomposition(mask, w, maxRegions, comps);
    assert regions == Regions(comps);
    info := LabelInfo(pixelCount, coverage, |regions|, SliceTo(regions, maxRegions));
    EntryOf(lbl, w, maxRegions, v, info, comps);
  }

  /** A decomposition of the mask of a present label, recorded with its pixel count, coverage and
      the regions of its components, is what `analyze_labels` records. */
  lemma EntryOf(lbl: seq<seq<Byte>>, w: nat, maxRegions: int, v: Byte, info: LabelInfo, comps: seq<seq<Coord>>)
    requires Rect(lbl, w) && v in Flatten(lbl)
    requires Decomposition(EqMask(lbl, w, v), w, maxRegions, comps)
    requires info.pixelCount == PixelCount(lbl, v) && |lbl| * w > 0
    requires info.coveragePercent == 100.0 * info.pixelCount as real / (|lbl| * w) as real
    requires info.numRegions == |comps| && info.regions == SliceTo(Regions(comps), maxRegions)
    ensures LabelEntry(lbl, w, maxRegions, v, info, comps)
  {
    var mask := EqMask(lbl, w, v);
    CountPositive(Flatten(lbl), v);
    FlattenMember(lbl, w, v);
    FlattenLength(lbl, w);
    var y, x :| 0 <= y < |lbl| && 0 <= x < w && lbl[y][x] == v;
    assert On(mask, w, (y, x));
    assert |comps| >= 1;
    ComponentBoxesInGrid(mask, w, comps, maxRegions);
  }

  /** The region entries of a list of components, in order. */
  function Regions(comps: seq<seq<Coord>>): (r: seq<Region>)
    requires forall i :: 0 <= i < |comps| ==> |comps[i]| > 0
    ensures |r| == |comps| && forall i :: 0 <= i < |comps| ==> r[i] == RegionOf(comps[i])
  {
    seq(|comps|, i requires 0 <= i < |comps| => RegionOf(comps[i]))
  }

  /** `comps` is what `connected_components_bboxes(mask, max_regions)` finds: disjoint maximal
      4-connected components of the mask in the order the row-major scan starts them, at most the
      cap of them, at least one when the mask has a true pixel, and all of them below the cap. At
      the cap they are the first ones the scan meets. */
  ghost predicate Decomposition(mask: seq<seq<bool>>, w: nat, maxRegions: int, comps: seq<seq<Coord>>)
    requires Rect(mask, w)
  {
    (forall i :: 0 <= i < |comps| ==> IsComponent(mask, w, comps[i])) &&
    (forall i, j :: 0 <= i < j < |comps| ==> Elems(comps[i]) !! Elems(comps[j])) &&
    ScanOrdered(mask, w, comps) &&
    |comps| <= (if maxRegions > 1 then maxRegions else 1) &&
    ((exists c :: On(mask, w, c)) ==> |comps| > 0) &&
    (|comps| < maxRegions ==> forall c :: On(mask, w, c) ==> exists i :: 0 <= i < |comps| && c in comps[i])
  }

  /** What `analyze_labels` records for the label v: its pixel count and coverage, and the regions
      of the components `comps` of the mask `lbl == v`, their number, and the list cut at the cap. */
  ghost predicate LabelEntry(lbl: seq<seq<Byte>>, w: nat, maxRegions: int, v: Byte, info: LabelInfo, comps: seq<seq<Coord>>)
    requires Rect(lbl, w)
  {
    info.pixelCount == PixelCount(lbl, v) && info.pixelCount >= 1 &&
    |lbl| * w > 0 &&
    info.coveragePercent == 100.0 * info.pixelCount as real / (|lbl| * w) as real &&
    Rect(EqMask(lbl, w, v), w) && Decomposition(EqMask(lbl, w, v), w, maxRegions, comps) &&
    info.numRegions == |comps| && info.regions == SliceTo(Regions(comps), maxRegions) &&
    1 <= info.numRegions <= (if maxRegions > 1 then maxRegions else 1) &&
    BoxesInGrid(info.regions, |lbl|, w)
  }

  predicate BoxesInGrid(regions: seq<Region>, h: nat, w: nat) {
    forall k :: 0 <= k < |regions| ==> BoxInGrid(regions[k], h, w) && regions[k].pixelCount >= 1
  }

  /** The recorded regions of components of a mask lie inside the grid. */
  lemma ComponentBoxesInGrid(mask: seq<seq<bool>>, w: nat, comps: seq<seq<Coord>>, maxRegions: int)
    requires Rect(mask, w)
    requires forall i :: 0 <= i < |comps| ==> IsComponent(mask, w, comps[i]) && |comps[i]| > 0
    ensures BoxesInGrid(SliceTo(Regions(comps), maxRegions), |mask|, w)
  {
    var regions := Regions(comps);
    var sliced := SliceTo(regions, maxRegions);
    forall k | 0 <= k < |sliced| ensures BoxInGrid(sliced[k], |mask|, w) && sliced[k].pixelCount >= 1 {
      assert sliced[k] == regions[k];
      RegionInGrid(mask, w, comps[k]);
    }
  }

  function SumPixels(out: seq<(Byte, LabelInfo)>): nat {
    if |out| == 0 then 0 else SumPixels(out[..|out| - 1]) + out[|out| - 1].1.pixelCount
  }

  lemma {:induction false} SumCountsSnoc(u: seq<Byte>, v: Byte, s: seq<Byte>)
    ensures SumCounts(u + [v], s) == SumCounts(u, s) + Count(s, v)
  {
    if |u| == 0 {
      assert (u + [v])[1..] == [];
    } else {
      assert (u + [v])[1..] == u[1..] + [v];
      SumCountsSnoc(u[1..], v, s);
    }
  }
}
