/** The pixel budget of page previews: `clamp_scale`, `predicted_pixels` and the loop of
    `render_previews` of `src/compile.rs`. Arithmetic is over the reals; a product or a
    quotient is rounded by a function of which only its relative error is known. */
module Previews {
  import opened Wrappers
  import opened Binary32

  const U32_LIMIT: int := 0x1_0000_0000

  function Abs(x: real): real {
    if x < 0.0 then -x else x
  }

  /** A relative error of at most 2 to the -24th. */
  ghost predicate Rounds(rnd: real -> real) {
    forall x :: 16777216.0 * Abs(rnd(x) - x) <= Abs(x)
  }

  /** `f32::round`: halves go away from zero. */
  function Round(x: real): int {
    if x >= 0.0 then (x + 0.5).Floor else -((-x + 0.5).Floor)
  }

  /** `as f32` on a pixel count, exact up to 2 to the 24th. */
  function AsFloat(rnd: real -> real, n: nat): real {
    if n <= 0x100_0000 then n as real else rnd(n as real)
  }

  function Longest(width: real, height: real): real {
    if width < height then height else width
  }

  /** A request that is not finite, or not positive, means the default. */
  function Sane(requested: Option<real>): (r: real)
    ensures r > 0.0
  {
    if requested.Some? && requested.value > 0.0 then requested.value else 1.0
  }

  function Ceiling(rnd: real -> real, longest: real, maxPx: nat): real
    requires longest > 0.0
  {
    rnd(AsFloat(rnd, maxPx) / longest)
  }

  function ClampScale(rnd: real -> real, requested: Option<real>, width: real, height: real, maxPx: nat): real {
    var longest := Longest(width, height);
    if longest <= 0.0 then Sane(requested)
    else if Ceiling(rnd, longest, maxPx) < Sane(requested) then Ceiling(rnd, longest, maxPx)
    else Sane(requested)
  }

  function Axis(rnd: real -> real, scale: real, pt: real): Option<nat> {
    var px := Round(rnd(scale * pt));
    var floored := if px < 1 then 1 else px;
    if floored <= U32_LIMIT then Some(if floored == U32_LIMIT then U32_LIMIT - 1 else floored) else None
  }

  function PredictedPixels(rnd: real -> real, width: real, height: real, scale: real): Option<(nat, nat)> {
    match (Axis(rnd, scale, width), Axis(rnd, scale, height))
    case (Some(w), Some(h)) => Some((w, h))
    case _ => None
  }

  // ---- The bound ----

  /** Up to here the error of two roundings stays below half a pixel, however they go. */
  const MAX_SAFE_PX: nat := 4194303

  lemma RoundedWithin(rnd: real -> real, x: real)
    requires Rounds(rnd) && x >= 0.0
    ensures 16777215.0 * x <= 16777216.0 * rnd(x) <= 16777217.0 * x
  {
    assert 16777216.0 * Abs(rnd(x) - x) <= Abs(x);
  }

  lemma RoundedNonPositive(rnd: real -> real, x: real)
    requires Rounds(rnd) && x <= 0.0
    ensures rnd(x) <= 0.0
  {
    assert 16777216.0 * Abs(rnd(x) - x) <= Abs(x);
  }

  /** Scaling the longest edge by the ceiling gives the budget, up to one rounding. */
  lemma CeilingTimesLongest(rnd: real -> real, longest: real, maxPx: nat)
    requires Rounds(rnd) && longest > 0.0 && maxPx <= 0x100_0000
    ensures 16777216.0 * (Ceiling(rnd, longest, maxPx) * longest) <= 16777217.0 * maxPx as real
    ensures 16777216.0 * (Ceiling(rnd, longest, maxPx) * longest) >= 16777215.0 * maxPx as real
    ensures Ceiling(rnd, longest, maxPx) >= 0.0
  {
    var q := maxPx as real / longest;
    var c := Ceiling(rnd, longest, maxPx);
    QuotientTimes(maxPx as real, longest);
    assert q >= 0.0;
    RoundedWithin(rnd, q);
    TimesMonotone(16777216.0 * c, 16777217.0 * q, longest);
    TimesMonotone(16777215.0 * q, 16777216.0 * c, longest);
    assert (16777216.0 * c) * longest == 16777216.0 * (c * longest);
    assert (16777217.0 * q) * longest == 16777217.0 * (q * longest);
    assert (16777215.0 * q) * longest == 16777215.0 * (q * longest);
  }

  lemma AxisBelow(rnd: real -> real, scale: real, pt: real, maxPx: nat)
    requires rnd(scale * pt) < maxPx as real + 0.5 && 1 <= maxPx <= MAX_SAFE_PX
    ensures Axis(rnd, scale, pt).Some? && Axis(rnd, scale, pt).value <= maxPx
  {
  }

  /** No edge of a page overruns a safe budget under its clamped scale. */
  lemma AxisWithinBudget(rnd: real -> real, scale: real, pt: real, longest: real, maxPx: nat)
    requires Rounds(rnd) && 1 <= maxPx <= MAX_SAFE_PX && pt <= longest && scale >= 0.0
    requires longest > 0.0 ==> scale <= Ceiling(rnd, longest, maxPx)
    ensures Axis(rnd, scale, pt).Some? && Axis(rnd, scale, pt).value <= maxPx
  {
    var x := scale * pt;
    if pt <= 0.0 {
      TimesMonotone(pt, 0.0, scale);
      RoundedNonPositive(rnd, x);
      AxisBelow(rnd, scale, pt, maxPx);
    } else {
      CeilingTimesLongest(rnd, longest, maxPx);
      TimesMonotone(pt, longest, scale);
      TimesMonotone(scale, Ceiling(rnd, longest, maxPx), longest);
      TimesMonotone(0.0, scale, pt);
      var most := Ceiling(rnd, longest, maxPx) * longest;
      assert x <= scale * longest <= most;
      TimesMonotone(x, most, 16777216.0);
      RoundedWithin(rnd, x);
      TwoRoundings(rnd(x), x, maxPx as real);
      AxisBelow(rnd, scale, pt, maxPx);
    }
  }

  lemma TwoRoundings(y: real, x: real, m: real)
    requires 16777216.0 * y <= 16777217.0 * x && 16777216.0 * x <= 16777217.0 * m && m <= 4194303.0
    ensures y < m + 0.5
  {
  }

  lemma TwoRoundingsBelow(y: real, x: real, m: real)
    requires 16777215.0 * x <= 16777216.0 * y && 16777215.0 * m <= 16777216.0 * x && 0.0 <= m <= 4194303.0
    ensures y >= m - 0.5
  {
  }

  /** However products and quotients are rounded, no preview overruns a budget up to here. */
  lemma PreviewFits(rnd: real -> real, requested: Option<real>, width: real, height: real, maxPx: nat)
    requires Rounds(rnd) && 1 <= maxPx <= MAX_SAFE_PX
    ensures Fits(rnd, requested, width, height, maxPx)
  {
    var longest := Longest(width, height);
    var scale := ClampScale(rnd, requested, width, height, maxPx);
    if longest > 0.0 {
      CeilingTimesLongest(rnd, longest, maxPx);
    }
    AxisWithinBudget(rnd, scale, width, longest, maxPx);
    AxisWithinBudget(rnd, scale, height, longest, maxPx);
  }

  /** What `render_previews` checks before it lets anything be allocated. */
  predicate Fits(rnd: real -> real, requested: Option<real>, width: real, height: real, maxPx: nat) {
    match PredictedPixels(rnd, width, height, ClampScale(rnd, requested, width, height, maxPx))
    case Some((w, h)) => w <= maxPx && h <= maxPx
    case None => false
  }

  /** A clamped preview uses its whole budget: its longest edge is the limit to the pixel. */
  lemma ClampedPreviewIsFull(rnd: real -> real, requested: Option<real>, width: real, height: real, maxPx: nat)
    requires Rounds(rnd) && 1 <= maxPx <= MAX_SAFE_PX && Longest(width, height) > 0.0
    requires Ceiling(rnd, Longest(width, height), maxPx) <= Sane(requested)
    ensures (Axis(rnd, ClampScale(rnd, requested, width, height, maxPx), Longest(width, height)) == Some(maxPx))
  {
    var longest := Longest(width, height);
    var c := Ceiling(rnd, longest, maxPx);
    CeilingTimesLongest(rnd, longest, maxPx);
    TimesMonotone(0.0, c, longest);
    AxisIsFull(rnd, c, longest, maxPx);
  }

  lemma AxisExactly(rnd: real -> real, scale: real, pt: real, maxPx: nat)
    requires maxPx as real - 0.5 <= rnd(scale * pt) < maxPx as real + 0.5 && 1 <= maxPx <= MAX_SAFE_PX
    ensures Axis(rnd, scale, pt) == Some(maxPx)
  {
    assert Round(rnd(scale * pt)) == maxPx;
  }

  lemma AxisIsFull(rnd: real -> real, scale: real, pt: real, maxPx: nat)
    requires Rounds(rnd) && 1 <= maxPx <= MAX_SAFE_PX && scale * pt >= 0.0
    requires 16777215.0 * maxPx as real <= 16777216.0 * (scale * pt) <= 16777217.0 * maxPx as real
    ensures Axis(rnd, scale, pt) == Some(maxPx)
  {
    var x := scale * pt;
    RoundedWithin(rnd, x);
    TwoRoundings(rnd(x), x, maxPx as real);
    TwoRoundingsBelow(rnd(x), x, maxPx as real);
    AxisExactly(rnd, scale, pt, maxPx);
  }

  // ---- render_previews ----

  datatype Page = Page(width: real, height: real)

  datatype Preview = Preview(page: nat, width: nat, height: nat)

  datatype PreviewError = NoSuchPage(page: nat, pages: nat) | PageTooLarge(page: nat) | NotEncoded(page: nat)

  /** What is asked for: a scale, a budget, and which pages the PNG encoder will take. */
  datatype Request = Request(scale: Option<real>, maxPx: nat, encodes: nat -> bool)

  predicate IsPage(pages: seq<Page>, number: nat) {
    1 <= number <= |pages|
  }

  /** One requested preview. */
  function PreviewOf(rnd: real -> real, pages: seq<Page>, number: nat, rq: Request): Result<Preview, PreviewError> {
    if !IsPage(pages, number) then Err(NoSuchPage(number, |pages|))
    else
      var page := pages[number - 1];
      match PredictedPixels(rnd, page.width, page.height, ClampScale(rnd, rq.scale, page.width, page.height, rq.maxPx))
      case None => Err(PageTooLarge(number))
      case Some((w, h)) =>
        if w > rq.maxPx || h > rq.maxPx then Err(PageTooLarge(number))
        else if !rq.encodes(number) then Err(NotEncoded(number))
        else Ok(Preview(number, w, h))
  }

  /** The preview loop: every requested page, or the first failure. */
  method RenderPreviews(rnd: real -> real, pages: seq<Page>, numbers: seq<nat>, rq: Request)
    returns (r: Result<seq<Preview>, PreviewError>)
    ensures r.Ok? ==>
              && |r.value| == |numbers|
              && forall i :: 0 <= i < |numbers| ==> PreviewOf(rnd, pages, numbers[i], rq) == Ok(r.value[i])
    ensures r.Err? ==>
              exists i :: && 0 <= i < |numbers|
                          && PreviewOf(rnd, pages, numbers[i], rq) == Err(r.error)
                          && forall j :: 0 <= j < i ==> PreviewOf(rnd, pages, numbers[j], rq).Ok?
  {
    var previews: seq<Preview> := [];
    for i := 0 to |numbers|
      invariant |previews| == i
      invariant forall j :: 0 <= j < i ==> PreviewOf(rnd, pages, numbers[j], rq) == Ok(previews[j])
    {
      var preview := PreviewOf(rnd, pages, numbers[i], rq);
      if preview.Err? {
        return Err(preview.error);
      }
      previews := previews + [preview.value];
    }
    r := Ok(previews);
  }

  /** With a safe budget a preview fails only because its page is not there or the encoder
      refuses it, and is within the budget on both edges otherwise. */
  lemma OnlyMissingPagesFail(rnd: real -> real, pages: seq<Page>, number: nat, rq: Request)
    requires Rounds(rnd) && 1 <= rq.maxPx <= MAX_SAFE_PX
    ensures (match PreviewOf(rnd, pages, number, rq)
             case Err(NoSuchPage(n, count)) => !IsPage(pages, number) && n == number && count == |pages|
             case Err(NotEncoded(n)) => IsPage(pages, number) && n == number && !rq.encodes(number)
             case Err(PageTooLarge(_)) => false
             case Ok(p) => && IsPage(pages, number) && rq.encodes(number) && p.page == number
                           && p.width <= rq.maxPx && p.height <= rq.maxPx)
  {
    if IsPage(pages, number) {
      PreviewFits(rnd, rq.scale, pages[number - 1].width, pages[number - 1].height, rq.maxPx);
    }
  }

  /** A number of pixels for a length: no further off than half a pixel and one rounding, and
      at least one pixel. */
  predicate IsNear(n: nat, length: real) {
    Abs(n as real - if length < 1.0 then 1.0 else length) <= 0.5 + Abs(length) / 16777216.0
  }

  lemma AxisIsNear(rnd: real -> real, scale: real, pt: real, n: nat)
    requires Rounds(rnd) && Axis(rnd, scale, pt) == Some(n) && n < U32_LIMIT - 1
    ensures IsNear(n, scale * pt)
  {
    var x := scale * pt;
    assert 16777216.0 * Abs(rnd(x) - x) <= Abs(x);
  }

  /** The predicted width is the page's and the predicted height the page's, at that scale. */
  lemma PixelsAreNear(rnd: real -> real, width: real, height: real, scale: real, w: nat, h: nat)
    requires Rounds(rnd) && PredictedPixels(rnd, width, height, scale) == Some((w, h))
    requires w < U32_LIMIT - 1 && h < U32_LIMIT - 1
    ensures IsNear(w, scale * width) && IsNear(h, scale * height)
  {
    AxisIsNear(rnd, scale, width, w);
    AxisIsNear(rnd, scale, height, h);
  }

  /** A preview is of the page asked for, and as wide and as high as was predicted for it. */
  lemma PreviewIsPredicted(rnd: real -> real, page: Page, pages: seq<Page>, number: nat, rq: Request, p: Preview)
    requires IsPage(pages, number) && pages[number - 1] == page && PreviewOf(rnd, pages, number, rq) == Ok(p)
    ensures p.page == number && p.width <= rq.maxPx && p.height <= rq.maxPx
    ensures PredictedPixels(rnd, page.width, page.height, ClampScale(rnd, rq.scale, page.width, page.height, rq.maxPx))
         == Some((p.width, p.height))
  {
  }
}
