/** Pan and zoom arithmetic of the image annotator: the offset clamp that keeps the image inside the
    viewer, zoom toward the cursor, reset and fit-to-window. Positions are exact reals. */
module Viewport {
  import opened JsValues

  datatype Point = Point(x: real, y: real)

  /** The container's client size. */
  datatype Box = Box(clientWidth: nat, clientHeight: nat)

  /** The image element's natural and rendered sizes (0 while not loaded). */
  datatype Image = Image(naturalWidth: nat, width: nat, naturalHeight: nat, height: nat)

  /** Which of the two DOM elements are mounted. */
  datatype Env = Env(container: Option<Box>, image: Option<Image>)

  /** A JavaScript number as an offset component can hold one: finite, an infinity, or NaN. */
  datatype Px = Fin(v: real) | PosInf | NegInf | NaN

  /** The stored `offset` state: `{x, y}`. */
  datatype Offset = Offset(x: Px, y: Px)

  datatype View = View(zoom: real, offset: Offset)

  /** The finite offset at a point. */
  function At(p: Point): Offset {
    Offset(Fin(p.x), Fin(p.y))
  }

  const Origin: Offset := At(Point(0.0, 0.0))

  function Min(a: real, b: real): real { if a <= b then a else b }
  function Max(a: real, b: real): real { if a >= b then a else b }

  /** `naturalWidth || width || 1` */
  function NaturalWidth(img: Image): (iw: real)
    ensures iw >= 1.0
    ensures img.naturalWidth > 0 ==> iw == img.naturalWidth as real
    ensures img.naturalWidth == 0 && img.width > 0 ==> iw == img.width as real
  {
    if img.naturalWidth > 0 then img.naturalWidth as real
    else if img.width > 0 then img.width as real
    else 1.0
  }

  function NaturalHeight(img: Image): (ih: real)
    ensures ih >= 1.0
    ensures img.naturalHeight > 0 ==> ih == img.naturalHeight as real
    ensures img.naturalHeight == 0 && img.height > 0 ==> ih == img.height as real
  {
    if img.naturalHeight > 0 then img.naturalHeight as real
    else if img.height > 0 then img.height as real
    else 1.0
  }

  /** `Math.max(1, natural * zoom)`: the displayed extent used for the bounds. */
  function Displayed(natural: real, zoom: real): (d: real)
    ensures d >= 1.0 && d >= natural * zoom
  {
    Max(1.0, natural * zoom)
  }

  /** One axis of the clamp: `c` is the container extent, `d` the displayed extent and `p` the proposed
      offset, None when it is not a number. */
  function ClampAxis(c: real, d: real, p: Option<real>): (o: real)
    ensures Min(0.0, c - d) <= o <= Max(0.0, c - d)
    // a displayed extent that fits lies wholly inside the container ...
    ensures d <= c ==> 0.0 <= o && o + d <= c
    // ... and one that does not fit covers the container entirely
    ensures d > c ==> o <= 0.0 && o + d >= c
    // a missing component defaults to the centre, which is never moved
    ensures p.None? ==> o == (c - d) / 2.0
    // an in-range proposal is kept as it is
    ensures p.Some? && Min(0.0, c - d) <= p.value <= Max(0.0, c - d) ==> o == p.value
  {
    var lo := if d <= c then 0.0 else c - d;
    var hi := if d <= c then c - d else 0.0;
    var v := if p.Some? then p.value else (c - d) / 2.0;
    Min(hi, Max(lo, v))
  }

  /** Clamping an already clamped offset changes nothing. */
  lemma ClampAxisIdempotent(c: real, d: real, p: Option<real>)
    ensures ClampAxis(c, d, Some(ClampAxis(c, d, p))) == ClampAxis(c, d, p)
  {
  }

  /** The part of the displayed image that is visible, `[o, o + d] ∩ [0, c]`, is as long as the smaller
      of the two extents: the image is never pushed out of view. */
  lemma {:induction false} VisibleExtent(c: real, d: real, p: Option<real>)
    requires c >= 0.0
    ensures var o := ClampAxis(c, d, p); Min(c, o + d) - Max(0.0, o) == Min(c, d)
  {
    var o := ClampAxis(c, d, p);
    if d <= c {
      assert 0.0 <= o && o + d <= c;
    } else {
      assert o <= 0.0 && o + d >= c;
    }
  }

  /** One axis of the clamp on a JavaScript number: `Math.min(hi, Math.max(lo, p))` sends an
      infinity to the bound on its side and keeps NaN, which `typeof` still calls a number. */
  function ClampPx(c: real, d: real, p: Option<Px>): (o: Px)
    ensures o.NaN? <==> p == Some(NaN)
    ensures o.Fin? ==> Min(0.0, c - d) <= o.v <= Max(0.0, c - d)
    ensures p.None? ==> o == Fin((c - d) / 2.0)
    ensures p.Some? && p.value.Fin? ==> o == Fin(ClampAxis(c, d, Some(p.value.v)))
    ensures p == Some(PosInf) ==> o == Fin(Max(0.0, c - d))
    ensures p == Some(NegInf) ==> o == Fin(Min(0.0, c - d))
  {
    if p.None? then Fin(ClampAxis(c, d, None))
    else match p.value
      case Fin(v) => Fin(ClampAxis(c, d, Some(v)))
      case PosInf => Fin(if d <= c then c - d else 0.0)
      case NegInf => Fin(if d <= c then 0.0 else c - d)
      case NaN => NaN
  }

  /** `clampAndSet(proposedZoom, proposedOffset)`: the view it stores. */
  function ClampView(env: Env, z: real, proposed: Option<Offset>): (v: View)
    ensures v.zoom == z
    ensures (env.container.None? || env.image.None?) ==>
      v.offset == (if proposed.Some? then proposed.value else Origin)
    ensures env.container.Some? && env.image.Some? ==>
      var cw := env.container.value.clientWidth as real;
      var ch := env.container.value.clientHeight as real;
      var dw := Displayed(NaturalWidth(env.image.value), z);
      var dh := Displayed(NaturalHeight(env.image.value), z);
      (v.offset.x.Fin? ==> Min(0.0, cw - dw) <= v.offset.x.v <= Max(0.0, cw - dw)) &&
      (v.offset.y.Fin? ==> Min(0.0, ch - dh) <= v.offset.y.v <= Max(0.0, ch - dh)) &&
      (v.offset.x.NaN? <==> proposed.Some? && proposed.value.x.NaN?) &&
      (v.offset.y.NaN? <==> proposed.Some? && proposed.value.y.NaN?) &&
      (proposed.None? ==> v.offset == At(Point((cw - dw) / 2.0, (ch - dh) / 2.0)))
  {
    if env.container.None? || env.image.None? then
      View(z, if proposed.Some? then proposed.value else Origin)
    else
      var cw := env.container.value.clientWidth as real;
      var ch := env.container.value.clientHeight as real;
      var dw := Displayed(NaturalWidth(env.image.value), z);
      var dh := Displayed(NaturalHeight(env.image.value), z);
      var px := if proposed.Some? then Some(proposed.value.x) else None;
      var py := if proposed.Some? then Some(proposed.value.y) else None;
      View(z, Offset(ClampPx(cw, dw, px), ClampPx(ch, dh, py)))
  }

  /** A finite proposal on a mounted image always gives a finite offset inside the bounds. */
  lemma ClampFinite(env: Env, z: real, p: Point)
    requires env.container.Some? && env.image.Some?
    ensures var v := ClampView(env, z, Some(At(p)));
            var cw := env.container.value.clientWidth as real;
            var ch := env.container.value.clientHeight as real;
            var dw := Displayed(NaturalWidth(env.image.value), z);
            var dh := Displayed(NaturalHeight(env.image.value), z);
            v.offset.x.Fin? && v.offset.y.Fin? &&
            Min(0.0, cw - dw) <= v.offset.x.v <= Max(0.0, cw - dw) &&
            Min(0.0, ch - dh) <= v.offset.y.v <= Max(0.0, ch - dh)
  {
  }

  // ---------------------------------------------------------------- wheel zoom

  const ZoomStep: real := 1.08
  const MinZoom: real := 0.05
  const MaxZoom: real := 20.0

  /** The zoom after one wheel notch: up by 8% when scrolling up, down otherwise, kept in [0.05, 20]. */
  function WheelZoom(zoom: real, deltaY: real): (z: real)
    ensures MinZoom <= z <= MaxZoom
    ensures MinZoom <= zoom * ZoomStep <= MaxZoom && deltaY < 0.0 ==> z == zoom * ZoomStep
    ensures MinZoom <= zoom / ZoomStep <= MaxZoom && deltaY >= 0.0 ==> z == zoom / ZoomStep
  {
    var factor := if -deltaY > 0.0 then ZoomStep else 1.0 / ZoomStep;
    assert zoom / ZoomStep == zoom * (1.0 / ZoomStep);
    Max(MinZoom, Min(MaxZoom, zoom * factor))
  }

  /** One axis of the proposed offset after a wheel notch, `c - ((c - o) / zoom) * newZoom`, in
      JavaScript arithmetic for a positive `newZoom`: an infinity stays infinite (its sign flips for
      a negative zoom); at zoom 0 the division gives an infinity, or NaN when `c == o`. */
  function WheelAxis(zoom: real, o: Px, newZoom: real, c: real): (r: Px)
    requires newZoom > 0.0
    ensures zoom != 0.0 && o.Fin? ==> r.Fin? && (c - r.v) / newZoom == (c - o.v) / zoom
    ensures zoom == 0.0 && o.Fin? ==>
      (c > o.v ==> r == NegInf) && (c < o.v ==> r == PosInf) && (c == o.v ==> r == NaN)
    ensures o.NaN? ==> r.NaN?
  {
    match o
    case NaN => NaN
    case PosInf => if zoom >= 0.0 then PosInf else NegInf
    case NegInf => if zoom >= 0.0 then NegInf else PosInf
    case Fin(v) =>
      if zoom != 0.0 then
        var image := (c - v) / zoom;
        assert c - (c - image * newZoom) == image * newZoom;
        Fin(c - image * newZoom)
      else if c > v then NegInf
      else if c < v then PosInf
      else NaN
  }

  /** The proposed offset after a wheel notch at container position (cx, cy), before clamping. Zoom
      toward the cursor: at a non-zero zoom, the image point under the cursor before the notch is
      under it after; an axis becomes NaN exactly when it was NaN or, at zoom 0, the cursor sits on it. */
  function WheelOffset(zoom: real, offset: Offset, deltaY: real, cx: real, cy: real): (o: Offset)
    ensures var nz := WheelZoom(zoom, deltaY);
      zoom != 0.0 && offset.x.Fin? ==> o.x.Fin? && (cx - o.x.v) / nz == (cx - offset.x.v) / zoom
    ensures var nz := WheelZoom(zoom, deltaY);
      zoom != 0.0 && offset.y.Fin? ==> o.y.Fin? && (cy - o.y.v) / nz == (cy - offset.y.v) / zoom
    ensures o.x.NaN? <==> offset.x.NaN? || (zoom == 0.0 && offset.x == Fin(cx))
    ensures o.y.NaN? <==> offset.y.NaN? || (zoom == 0.0 && offset.y == Fin(cy))
  {
    var nz := WheelZoom(zoom, deltaY);
    Offset(WheelAxis(zoom, offset.x, nz, cx), WheelAxis(zoom, offset.y, nz, cy))
  }

  /** `handleWheel`: None when no container is mounted (the event is ignored). */
  function WheelView(env: Env, view: View, deltaY: real, cx: real, cy: real): (r: Option<View>)
    ensures env.container.None? <==> r.None?
    ensures r.Some? ==> MinZoom <= r.value.zoom <= MaxZoom
    ensures r.Some? && env.image.Some? && view.zoom != 0.0 && view.offset.x.Fin? && view.offset.y.Fin? ==>
      r.value.offset.x.Fin? && r.value.offset.y.Fin?
  {
    if env.container.None? then None
    else Some(ClampView(env, WheelZoom(view.zoom, deltaY), Some(WheelOffset(view.zoom, view.offset, deltaY, cx, cy))))
  }

  /** A notch at zoom 0 (which `fitToWindow` stores for an empty container): on a mounted image each
      axis goes to the clamp bound on the far side of the cursor, or to NaN when the cursor is exactly
      at the offset. */
  lemma WheelAtZeroZoom(env: Env, offset: Point, deltaY: real, cx: real, cy: real)
    requires env.container.Some? && env.image.Some?
    ensures var r := WheelView(env, View(0.0, At(offset)), deltaY, cx, cy);
            var nz := WheelZoom(0.0, deltaY);
            var cw := env.container.value.clientWidth as real;
            var dw := Displayed(NaturalWidth(env.image.value), nz);
            r.Some? && r.value.zoom == MinZoom &&
            (cx > offset.x ==> r.value.offset.x == Fin(Min(0.0, cw - dw))) &&
            (cx < offset.x ==> r.value.offset.x == Fin(Max(0.0, cw - dw))) &&
            (cx == offset.x ==> r.value.offset.x == NaN)
  {
  }

  // ---------------------------------------------------------------- reset and fit

  /** `resetView`: zoom 1 with the image at the top-left corner, clamped. */
  function ResetView(env: Env): (v: View)
    ensures v.zoom == 1.0
    ensures (env.container.None? || env.image.None?) ==> v.offset == Origin
  {
    ClampView(env, 1.0, Some(Origin))
  }

  /** `fitToWindow`: scale so the whole image fits and centre it. None when an element is missing or
      the image has no size yet (nothing changes). */
  function FitView(env: Env): (r: Option<View>)
    ensures r.Some? <==> CanFit(env)
    ensures r.Some? ==> r.value == ClampView(env, FitScale(env), Some(At(FitCentre(env))))
  {
    if env.container.None? || env.image.None? then None
    else
      var img := env.image.value;
      if !(img.naturalWidth > 0 || img.width > 0) || !(img.naturalHeight > 0 || img.height > 0) then None
      else Some(ClampView(env, FitScale(env), Some(At(FitCentre(env)))))
  }

  /** Both elements are mounted and the image has a size (`naturalWidth || width` is not 0). */
  predicate CanFit(env: Env) {
    env.container.Some? && env.image.Some? &&
    (env.image.value.naturalWidth > 0 || env.image.value.width > 0) &&
    (env.image.value.naturalHeight > 0 || env.image.value.height > 0)
  }

  /** `Math.min(cw / iw, ch / ih)` */
  function FitScale(env: Env): real
    requires env.container.Some? && env.image.Some?
  {
    var cw := env.container.value.clientWidth as real;
    var ch := env.container.value.clientHeight as real;
    Min(cw / NaturalWidth(env.image.value), ch / NaturalHeight(env.image.value))
  }

  /** The offsets that centre the image scaled by the fit scale. */
  function FitCentre(env: Env): Point
    requires env.container.Some? && env.image.Some?
  {
    var cw := env.container.value.clientWidth as real;
    var ch := env.container.value.clientHeight as real;
    var s := FitScale(env);
    Point((cw - NaturalWidth(env.image.value) * s) / 2.0, (ch - NaturalHeight(env.image.value) * s) / 2.0)
  }

  /** After fitting, the scaled image lies within the container and fills it along one axis. */
  lemma FitFits(env: Env)
    requires CanFit(env)
    ensures var cw := env.container.value.clientWidth as real;
            var ch := env.container.value.clientHeight as real;
            var iw := NaturalWidth(env.image.value);
            var ih := NaturalHeight(env.image.value);
            var s := FitScale(env);
            iw * s <= cw && ih * s <= ch && (iw * s == cw || ih * s == ch)
  {
    var cw := env.container.value.clientWidth as real;
    var ch := env.container.value.clientHeight as real;
    ScaleFits(cw, ch, NaturalWidth(env.image.value), NaturalHeight(env.image.value));
  }

  /** Unless the `max(1, ...)` floor of the bounds applies, the fitted image sits exactly in the centre. */
  lemma FitCentres(env: Env)
    requires CanFit(env)
    requires NaturalWidth(env.image.value) * FitScale(env) >= 1.0
    requires NaturalHeight(env.image.value) * FitScale(env) >= 1.0
    ensures FitView(env) == Some(View(FitScale(env), At(FitCentre(env))))
  {
    FitFits(env);
    CentredKept(env, FitScale(env), FitCentre(env));
  }

  /** A scale at which the image fits, with the offsets that centre it, is left as it is by the clamp. */
  lemma CentredKept(env: Env, z: real, p: Point)
    requires env.container.Some? && env.image.Some?
    requires var cw := env.container.value.clientWidth as real;
             var dw := NaturalWidth(env.image.value) * z;
             1.0 <= dw <= cw && p.x == (cw - dw) / 2.0
    requires var ch := env.container.value.clientHeight as real;
             var dh := NaturalHeight(env.image.value) * z;
             1.0 <= dh <= ch && p.y == (ch - dh) / 2.0
    ensures ClampView(env, z, Some(At(p))) == View(z, At(p))
  {
    var cw := env.container.value.clientWidth as real;
    var ch := env.container.value.clientHeight as real;
    var dw := NaturalWidth(env.image.value) * z;
    var dh := NaturalHeight(env.image.value) * z;
    assert Displayed(NaturalWidth(env.image.value), z) == dw;
    assert Displayed(NaturalHeight(env.image.value), z) == dh;
    CentreInRange(cw, dw);
    CentreInRange(ch, dh);
    ClampKeepsInRange(env, z, p);
  }

  lemma CentreInRange(c: real, d: real)
    requires d <= c
    ensures Min(0.0, c - d) <= (c - d) / 2.0 <= Max(0.0, c - d)
  {
  }

  /** A mounted clamp leaves an in-range proposal where it is. */
  lemma ClampKeepsInRange(env: Env, z: real, p: Point)
    requires env.container.Some? && env.image.Some?
    requires var cw := env.container.value.clientWidth as real;
             var dw := Displayed(NaturalWidth(env.image.value), z);
             Min(0.0, cw - dw) <= p.x <= Max(0.0, cw - dw)
    requires var ch := env.container.value.clientHeight as real;
             var dh := Displayed(NaturalHeight(env.image.value), z);
             Min(0.0, ch - dh) <= p.y <= Max(0.0, ch - dh)
    ensures ClampView(env, z, Some(At(p))) == View(z, At(p))
  {
  }

  /** The fit scale `min(cw/iw, ch/ih)` makes both scaled extents fit, one of them exactly. */
  lemma ScaleFits(cw: real, ch: real, iw: real, ih: real)
    requires cw >= 0.0 && ch >= 0.0 && iw >= 1.0 && ih >= 1.0
    ensures var s := Min(cw / iw, ch / ih);
            iw * s <= cw && ih * s <= ch && (iw * s == cw || ih * s == ch)
  {
    var s := Min(cw / iw, ch / ih);
    assert iw * (cw / iw) == cw;
    assert ih * (ch / ih) == ch;
    if cw / iw <= ch / ih {
      assert ih * s <= ih * (ch / ih);
    } else {
      assert iw * s <= iw * (cw / iw);
    }
  }
}
