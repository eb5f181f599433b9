/**
 * The page splitter of `ImageProcessor.detect_pages` and the size rule of
 * `ImageProcessor.preprocess_image`.
 *
 * A composite photo holds three notebook pages side by side. The detector
 * keeps the contours that are large and page-shaped, crops each with a
 * clamped margin, orders the crops left to right and, whenever it did not
 * find exactly three, cuts the photo into three full-height strips instead.
 * The OpenCV steps that produce the contours (Otsu threshold, dilation,
 * erosion, findContours, contourArea, boundingRect) are abstracted to the
 * list of contours they return.
 */
module ImageProcessor {
  import opened Wrappers
  import opened Raster

  /** Number of pages the detector always returns. */
  const PageCount: nat := 3
  /** A kept contour covers at least this percentage of the frame. */
  const MinAreaPercent: nat := 15
  /** Pixels added on each side of a kept bounding box before cropping. */
  const Margin: nat := 10
  /** Smallest side length `preprocess_image` lets through unscaled. */
  const MinSize: nat := 1000

  // ---------------------------------------------------------------------
  // Candidates
  // ---------------------------------------------------------------------

  /**
   * One external contour, as the detector reads it: its area (kept doubled,
   * since the area of a polygon with integer vertices is a multiple of 1/2)
   * and its upright bounding box `(x, y, w, h)`.
   */
  datatype Contour = Contour(doubledArea: nat, x: int, y: int, w: int, h: int)

  /** What `boundingRect` guarantees of a contour of a `width × height` image. */
  predicate Bounded(c: Contour, width: nat, height: nat) {
    0 <= c.x && 0 <= c.y && 1 <= c.w && 1 <= c.h && c.x + c.w <= width && c.y + c.h <= height
  }

  predicate AllBounded(cs: seq<Contour>, width: nat, height: nat) {
    forall i :: 0 <= i < |cs| ==> Bounded(cs[i], width, height)
  }

  /** `area >= 0.15 * width * height`, in exact arithmetic. */
  predicate LargeEnough(c: Contour, width: nat, height: nat) {
    100 * c.doubledArea >= 2 * MinAreaPercent * width * height
  }

  /** `0.5 <= w / h <= 1.5`, in exact arithmetic. */
  predicate PageShaped(c: Contour) {
    c.h <= 2 * c.w && 2 * c.w <= 3 * c.h
  }

  /** A contour survives the filter exactly when it passes both tests. */
  predicate Qualifies(c: Contour, width: nat, height: nat) {
    LargeEnough(c, width, height) && PageShaped(c)
  }

  /**
   * The bounding box grown by `Margin` on every side and clamped to the
   * image: it encloses the box, lies inside the image, and each edge is
   * either the grown edge or the image border.
   */
  function MarginBox(c: Contour, width: nat, height: nat): (r: Rect)
    requires Bounded(c, width, height)
    ensures r.Within(width, height)
    ensures r.x1 <= c.x && c.x + c.w <= r.x2 && r.y1 <= c.y && c.y + c.h <= r.y2
    ensures c.x - Margin <= r.x1 && (r.x1 == 0 || r.x1 == c.x - Margin)
    ensures c.y - Margin <= r.y1 && (r.y1 == 0 || r.y1 == c.y - Margin)
    ensures r.x2 <= c.x + c.w + Margin && (r.x2 == width || r.x2 == c.x + c.w + Margin)
    ensures r.y2 <= c.y + c.h + Margin && (r.y2 == height || r.y2 == c.y + c.h + Margin)
  {
    Rect(if c.x - Margin < 0 then 0 else c.x - Margin,
         if c.y - Margin < 0 then 0 else c.y - Margin,
         if c.x + c.w + Margin < width then c.x + c.w + Margin else width,
         if c.y + c.h + Margin < height then c.y + c.h + Margin else height)
  }

  // ---------------------------------------------------------------------
  // Pages and detections
  // ---------------------------------------------------------------------

  /** A returned page image, together with the rectangle it was cut from. */
  datatype Page = Page(region: Rect, image: Image)

  /**
   * An entry of the detector's `page_regions` list: the sort key `x1`, the
   * position `order` of its contour in the contour list, and the crop.
   */
  datatype Detection = Detection(x1: int, order: nat, page: Page)

  /** The entry a kept contour, at position `k` of the list, contributes. */
  function Detect(img: Image, c: Contour, k: nat): (d: Detection)
    requires Bounded(c, img.width, img.height)
    ensures d.order == k && d.x1 == d.page.region.x1
    ensures d.page.region == MarginBox(c, img.width, img.height)
    ensures d.page.image == Crop(img, d.page.region)
  {
    var r := MarginBox(c, img.width, img.height);
    Detection(r.x1, k, Page(r, Crop(img, r)))
  }

  predicate OrdersIncreasing(s: seq<Detection>) {
    forall i, j :: 0 <= i < j < |s| ==> s[i].order < s[j].order
  }

  /** The entries collected from the first `k` contours, in contour order. */
  function Survivors(img: Image, cs: seq<Contour>, k: nat): (kept: seq<Detection>)
    requires k <= |cs| && AllBounded(cs, img.width, img.height)
    ensures |kept| <= k
    ensures forall i :: 0 <= i < |kept| ==> kept[i].order < k
    ensures OrdersIncreasing(kept)
  {
    if k == 0 then []
    else
      var c := cs[k - 1];
      Survivors(img, cs, k - 1) + (if Qualifies(c, img.width, img.height) then [Detect(img, c, k - 1)] else [])
  }

  /** Every collected entry is the crop of a contour that passed the filter. */
  lemma {:induction false} SurvivorsQualify(img: Image, cs: seq<Contour>, k: nat, d: Detection)
    requires k <= |cs| && AllBounded(cs, img.width, img.height)
    requires d in Survivors(img, cs, k)
    ensures d.order < k && Qualifies(cs[d.order], img.width, img.height)
    ensures d == Detect(img, cs[d.order], d.order)
  {
    var prev := Survivors(img, cs, k - 1);
    if d !in prev {
      assert d == Detect(img, cs[k - 1], k - 1);
    } else {
      SurvivorsQualify(img, cs, k - 1, d);
    }
  }

  /** Every contour among the first `k` that passes the filter is collected. */
  lemma {:induction false} QualifiersSurvive(img: Image, cs: seq<Contour>, k: nat, i: nat)
    requires k <= |cs| && AllBounded(cs, img.width, img.height)
    requires i < k && Qualifies(cs[i], img.width, img.height)
    ensures Detect(img, cs[i], i) in Survivors(img, cs, k)
  {
    if i < k - 1 {
      QualifiersSurvive(img, cs, k - 1, i);
    }
  }

  // ---------------------------------------------------------------------
  // Left-to-right order
  // ---------------------------------------------------------------------

  /**
   * `a` comes before `b` in a stable sort by left edge: a smaller left
   * edge, or the same left edge and an earlier contour.
   */
  predicate Precedes(a: Detection, b: Detection) {
    a.x1 < b.x1 || (a.x1 == b.x1 && a.order < b.order)
  }

  predicate SortedByLeft(s: seq<Detection>) {
    forall i, j :: 0 <= i < j < |s| ==> Precedes(s[i], s[j])
  }

  /** Inserts `d` before the first entry whose left edge is not smaller. */
  function InsertByLeft(d: Detection, s: seq<Detection>): (r: seq<Detection>)
    ensures |r| == |s| + 1 && multiset(r) == multiset(s) + multiset{d}
  {
    if s == [] || d.x1 <= s[0].x1 then [d] + s
    else
      assert s == [s[0]] + s[1..];
      [s[0]] + InsertByLeft(d, s[1..])
  }

  /**
   * `list.sort(key=lambda x: x[0])`: Python's sort is stable, so entries
   * with equal left edges keep their list order.
   */
  function SortByLeft(s: seq<Detection>): (r: seq<Detection>)
    ensures |r| == |s| && multiset(r) == multiset(s)
  {
    if s == [] then []
    else
      assert s == [s[0]] + s[1..];
      InsertByLeft(s[0], SortByLeft(s[1..]))
  }

  lemma {:induction false} InsertByLeftSorted(d: Detection, s: seq<Detection>)
    requires SortedByLeft(s)
    requires forall e :: e in s ==> d.order < e.order
    ensures SortedByLeft(InsertByLeft(d, s))
  {
    if s == [] || d.x1 <= s[0].x1 {
      var r := [d] + s;
      forall i, j | 0 <= i < j < |r| ensures Precedes(r[i], r[j]) {
        if i > 0 {
          assert r[i] == s[i - 1] && r[j] == s[j - 1];
        } else {
          assert r[j] == s[j - 1] && r[j] in s;
          if j > 1 { assert Precedes(s[0], s[j - 1]); }
        }
      }
    } else {
      var t := s[1..];
      assert forall e :: e in t ==> e in s;
      InsertByLeftSorted(d, t);
      var u := InsertByLeft(d, t);
      var r := [s[0]] + u;
      forall i, j | 0 <= i < j < |r| ensures Precedes(r[i], r[j]) {
        if i > 0 {
          assert r[i] == u[i - 1] && r[j] == u[j - 1];
        } else {
          assert r[j] == u[j - 1] && r[j] in multiset(u);
          if r[j] != d {
            assert r[j] in multiset(t);
            var k :| 0 <= k < |t| && t[k] == r[j];
            assert r[j] == s[k + 1];
          }
        }
      }
    }
  }

  /**
   * Sorting entries whose contour positions increase yields the order
   * "left edge first, contour position second": the stable sort by left edge.
   */
  lemma {:induction false} SortByLeftSorted(s: seq<Detection>)
    requires OrdersIncreasing(s)
    ensures SortedByLeft(SortByLeft(s))
  {
    if s != [] {
      var t := s[1..];
      assert OrdersIncreasing(t) by {
        forall i, j | 0 <= i < j < |t| ensures t[i].order < t[j].order {
          assert t[i] == s[i + 1] && t[j] == s[j + 1];
        }
      }
      SortByLeftSorted(t);
      var sorted := SortByLeft(t);
      forall e | e in sorted ensures s[0].order < e.order {
        assert e in multiset(t);
        var k :| 0 <= k < |t| && t[k] == e;
        assert e == s[k + 1];
      }
      InsertByLeftSorted(s[0], sorted);
    }
  }

  /** The first entry of a sorted list precedes every other entry of it. */
  lemma HeadPrecedes(s: seq<Detection>, e: Detection)
    requires SortedByLeft(s) && e in s
    ensures e == s[0] || Precedes(s[0], e)
  {
  }

  lemma TailSorted(s: seq<Detection>)
    requires SortedByLeft(s) && s != []
    ensures SortedByLeft(s[1..])
  {
    forall i, j | 0 <= i < j < |s| - 1 ensures Precedes(s[1..][i], s[1..][j]) {
      assert s[1..][i] == s[i + 1] && s[1..][j] == s[j + 1];
    }
  }

  /** Two sorted orderings of the same entries start with the same entry. */
  lemma SameHead(a: seq<Detection>, b: seq<Detection>)
    requires multiset(a) == multiset(b) && a != []
    requires SortedByLeft(a) && SortedByLeft(b)
    ensures b != [] && a[0] == b[0]
  {
    assert |a| == |multiset(a)| == |b|;
    var first, other := a[0], b[0];
    assert first in multiset(b) && other in multiset(a);
    HeadPrecedes(a, other);
    HeadPrecedes(b, first);
  }

  /** Removing the same first entry from two orderings of the same entries. */
  lemma DropHead(a: seq<Detection>, b: seq<Detection>)
    requires multiset(a) == multiset(b) && a != [] && b != [] && a[0] == b[0]
    ensures multiset(a[1..]) == multiset(b[1..])
  {
    assert a == [a[0]] + a[1..] && b == [b[0]] + b[1..];
    assert multiset(a[1..]) == multiset(a) - multiset{a[0]};
    assert multiset(b[1..]) == multiset(b) - multiset{b[0]};
  }

  /**
   * Any two orderings of the same entries that are both sorted by
   * `Precedes` coincide: the stable sort by left edge is unique, so
   * `SortByLeft` agrees with every other stable sort.
   */
  lemma {:induction false} SortedByLeftUnique(a: seq<Detection>, b: seq<Detection>)
    requires multiset(a) == multiset(b)
    requires SortedByLeft(a) && SortedByLeft(b)
    ensures a == b
  {
    if a == [] {
      assert |b| == |multiset(b)| == 0;
    } else {
      SameHead(a, b);
      DropHead(a, b);
      TailSorted(a);
      TailSorted(b);
      SortedByLeftUnique(a[1..], b[1..]);
      assert a == [a[0]] + a[1..] && b == [b[0]] + b[1..];
    }
  }

  /** `[region[1] for region in page_regions]`. */
  function PagesOf(s: seq<Detection>): (pages: seq<Page>)
    ensures |pages| == |s| && forall i :: 0 <= i < |s| ==> pages[i] == s[i].page
  {
    seq(|s|, i requires 0 <= i < |s| => s[i].page)
  }

  // ---------------------------------------------------------------------
  // The equal-thirds fallback
  // ---------------------------------------------------------------------

  /**
   * Strip `i` of the fallback: full height; the first two are
   * `width / PageCount` wide and the last one takes the rest.
   */
  function Strip(width: nat, height: nat, i: nat): (r: Rect)
    requires i < PageCount
    ensures r.Within(width, height)
  {
    var pageWidth := width / PageCount;
    Rect(i * pageWidth, 0, if i < PageCount - 1 then (i + 1) * pageWidth else width, height)
  }

  /**
   * The strips tile the image: the first starts at the left border, each
   * ends where the next begins, the last ends at the right border, their
   * widths add up to the image width and each spans the full height.
   */
  lemma StripsTile(width: nat, height: nat)
    ensures Strip(width, height, 0).x1 == 0
    ensures Strip(width, height, 0).x2 == Strip(width, height, 1).x1
    ensures Strip(width, height, 1).x2 == Strip(width, height, 2).x1
    ensures Strip(width, height, 2).x2 == width
    ensures Strip(width, height, 0).Width() + Strip(width, height, 1).Width() + Strip(width, height, 2).Width() == width
    ensures Strip(width, height, 0).Width() == Strip(width, height, 1).Width() == width / PageCount
    ensures width / PageCount <= Strip(width, height, 2).Width() < width / PageCount + PageCount
    ensures forall i :: 0 <= i < PageCount ==> Strip(width, height, i).y1 == 0 && Strip(width, height, i).y2 == height
  {
  }

  /** The pages of the equal-thirds fallback. */
  function Thirds(img: Image): (pages: seq<Page>)
    ensures |pages| == PageCount
    ensures forall i :: 0 <= i < PageCount ==> pages[i].image.height == img.height
  {
    seq(PageCount, i requires 0 <= i < PageCount =>
      var r := Strip(img.width, img.height, i); Page(r, Crop(img, r)))
  }

  /** The fallback loop `for i in range(3)`, shared by both fallback branches. */
  method EqualSplit(img: Image) returns (pages: seq<Page>)
    ensures pages == Thirds(img)
  {
    var pageWidth := img.width / PageCount;
    pages := [];
    for i := 0 to PageCount
      invariant pages == Thirds(img)[..i]
    {
      var startX := i * pageWidth;
      var endX := if i < PageCount - 1 then (i + 1) * pageWidth else img.width;
      var strip := Rect(startX, 0, endX, img.height);
      assert strip == Strip(img.width, img.height, i);
      pages := pages + [Page(strip, Crop(img, strip))];
    }
  }

  // ---------------------------------------------------------------------
  // detect_pages
  // ---------------------------------------------------------------------

  datatype DetectError = InvalidImage

  /** The pages `detect_pages` returns for an image and its contours. */
  function DetectSpec(img: Image, cs: seq<Contour>): (pages: seq<Page>)
    requires AllBounded(cs, img.width, img.height)
    ensures |pages| == PageCount
  {
    var kept := Survivors(img, cs, |cs|);
    if |kept| == 0 then Thirds(img)
    else
      var sorted := SortByLeft(kept);
      if |sorted| != PageCount then Thirds(img) else PagesOf(sorted)
  }

  /**
   * `detect_pages`: a missing image is rejected before anything else;
   * otherwise exactly `PageCount` pages come back, on every path.
   */
  method DetectPages(image: Option<Image>, contours: seq<Contour>) returns (r: Result<seq<Page>, DetectError>)
    requires image.Some? ==> AllBounded(contours, image.value.width, image.value.height)
    ensures r.Err? <==> image.None?
    ensures r.Ok? ==> |r.value| == PageCount && r.value == DetectSpec(image.value, contours)
  {
    if image.None? {
      return Err(InvalidImage);
    }
    var img := image.value;
    var width, height := img.width, img.height;
    var pageRegions: seq<Detection> := [];
    var k := 0;
    while k < |contours|
      invariant 0 <= k <= |contours|
      invariant pageRegions == Survivors(img, contours, k)
    {
      var c := contours[k];
      k := k + 1;
      if !LargeEnough(c, width, height) {
        continue;
      }
      if !PageShaped(c) {
        continue;
      }
      var box := MarginBox(c, width, height);
      var pageImage := Crop(img, box);
      pageRegions := pageRegions + [Detection(box.x1, k - 1, Page(box, pageImage))];
    }
    var pages: seq<Page>;
    if |pageRegions| == 0 {
      pages := EqualSplit(img);
      return Ok(pages);
    }
    pageRegions := SortByLeft(pageRegions);
    pages := PagesOf(pageRegions);
    if |pages| != PageCount {
      pages := EqualSplit(img);
    }
    return Ok(pages);
  }

  /** Every page lies inside the image and is the crop of its region. */
  lemma PagesInsideImage(img: Image, cs: seq<Contour>)
    requires AllBounded(cs, img.width, img.height)
    ensures forall p :: p in DetectSpec(img, cs) ==>
      p.region.Within(img.width, img.height) && p.image == Crop(img, p.region)
  {
    var kept := Survivors(img, cs, |cs|);
    var pages := DetectSpec(img, cs);
    if |kept| == PageCount {
      var sorted := SortByLeft(kept);
      forall p | p in pages ensures p.region.Within(img.width, img.height) && p.image == Crop(img, p.region) {
        var i :| 0 <= i < |pages| && pages[i] == p;
        assert sorted[i] in multiset(kept);
        SurvivorsQualify(img, cs, |cs|, sorted[i]);
      }
    }
  }

  /**
   * When the filter does not keep exactly `PageCount` contours (none at
   * all included), the pages are the equal strips, which tile the image.
   */
  lemma FallbackPath(img: Image, cs: seq<Contour>)
    requires AllBounded(cs, img.width, img.height)
    requires |Survivors(img, cs, |cs|)| != PageCount
    ensures var pages := DetectSpec(img, cs);
      && (forall i :: 0 <= i < PageCount ==>
            pages[i].region == Strip(img.width, img.height, i) && pages[i].image.height == img.height)
      && pages[0].region.x1 == 0
      && pages[0].region.x2 == pages[1].region.x1
      && pages[1].region.x2 == pages[2].region.x1
      && pages[2].region.x2 == img.width
      && pages[0].region.Width() + pages[1].region.Width() + pages[2].region.Width() == img.width
  {
    StripsTile(img.width, img.height);
  }

  /**
   * When the filter keeps exactly `PageCount` contours, the pages are their
   * crops, each exactly once, ordered by left edge, ties in contour order.
   */
  lemma KeptPath(img: Image, cs: seq<Contour>)
    requires AllBounded(cs, img.width, img.height)
    requires |Survivors(img, cs, |cs|)| == PageCount
    ensures var kept := Survivors(img, cs, |cs|);
      var sorted := SortByLeft(kept);
      && DetectSpec(img, cs) == PagesOf(sorted)
      && multiset(sorted) == multiset(kept)
      && (forall i, j :: 0 <= i < j < |sorted| ==>
            sorted[i].x1 <= sorted[j].x1 && (sorted[i].x1 == sorted[j].x1 ==> sorted[i].order < sorted[j].order))
      && (forall i :: 0 <= i < |sorted| ==> sorted[i].x1 == sorted[i].page.region.x1)
  {
    var kept := Survivors(img, cs, |cs|);
    var sorted := SortByLeft(kept);
    SortByLeftSorted(kept);
    forall i | 0 <= i < |sorted| ensures sorted[i].x1 == sorted[i].page.region.x1 {
      assert sorted[i] in multiset(kept);
      SurvivorsQualify(img, cs, |cs|, sorted[i]);
    }
  }

  /**
   * On the kept path the entry of contour `k` (its margin box, its crop and
   * its position `k`) is among the sorted entries exactly when the contour
   * passes the area and aspect tests.
   */
  lemma KeptPathMembership(img: Image, cs: seq<Contour>, k: nat)
    requires AllBounded(cs, img.width, img.height)
    requires |Survivors(img, cs, |cs|)| == PageCount
    requires k < |cs|
    ensures Detect(img, cs[k], k) in SortByLeft(Survivors(img, cs, |cs|))
        <==> Qualifies(cs[k], img.width, img.height)
  {
    var kept := Survivors(img, cs, |cs|);
    var d := Detect(img, cs[k], k);
    if Qualifies(cs[k], img.width, img.height) {
      QualifiersSurvive(img, cs, |cs|, k);
      assert d in multiset(SortByLeft(kept));
    } else if d in SortByLeft(kept) {
      assert d in multiset(kept);
      SurvivorsQualify(img, cs, |cs|, d);
    }
  }

  // ---------------------------------------------------------------------
  // preprocess_image: the size rule
  // ---------------------------------------------------------------------

  /** The trailing axes of an image array: none (grayscale) or `n` channels. */
  datatype Depth = NoChannelAxis | Channels(n: nat)

  /** The shape of an image array, `(height, width[, channels])`. */
  datatype Shape = Shape(height: nat, width: nat, depth: Depth)

  /**
   * The library stages of `preprocess_image` that may raise: the colour
   * conversion to RGB, the resize, and the LAB/CLAHE enhancement.
   */
  datatype Stage = ColourConversion | Resize | Enhancement

  function MinSide(s: Shape): nat {
    if s.width < s.height then s.width else s.height
  }

  /** Whether a colour conversion runs: grayscale, or three channels. */
  predicate Converts(s: Shape) {
    s.depth == NoChannelAxis || s.depth == Channels(3)
  }

  /** Whether the RGB-to-LAB conversion of the enhancement accepts the array: 3 or 4 channels. */
  predicate Enhanceable(s: Shape) {
    s.depth == Channels(3) || s.depth == Channels(4)
  }

  predicate NeedsUpscale(s: Shape) {
    s.width < MinSize || s.height < MinSize
  }

  /** A side scaled by `MinSize / m` and truncated. */
  function ScaledSide(side: nat, m: nat): nat
    requires 1 <= m
  {
    side * MinSize / m
  }

  lemma MulMonotone(x: int, y: int, m: nat)
    requires x <= y
    ensures x * m <= y * m
  {
    assert y * m - x * m == (y - x) * m;
  }

  lemma ScaledSideBounds(side: nat, m: nat)
    requires 1 <= m <= side
    ensures ScaledSide(side, m) * m <= side * MinSize < (ScaledSide(side, m) + 1) * m
    ensures ScaledSide(side, m) >= MinSize
    ensures side == m ==> ScaledSide(side, m) == MinSize
    ensures m <= MinSize ==> ScaledSide(side, m) >= side
  {
    var a := side * MinSize;
    var q := a / m;
    assert a == q * m + a % m && 0 <= a % m < m;
    assert (q + 1) * m == q * m + m;
    assert q * m <= a < (q + 1) * m;
    MulMonotone(m, side, MinSize);
    if q < MinSize {
      MulMonotone(q + 1, MinSize, m);
      assert false;
    }
    if side == m && q > MinSize {
      MulMonotone(MinSize + 1, q, m);
      assert false;
    }
    if m <= MinSize && q < side {
      MulMonotone(q + 1, side, m);
      MulMonotone(m, MinSize, side);
      assert false;
    }
  }

  /**
   * The resize of a small image: both sides scaled by `MinSize / m`, with
   * `m` the smaller side, and truncated. The smaller side becomes exactly
   * `MinSize`, neither side shrinks, and each new side is the truncation
   * of the exact product. `cv2.resize` keeps the channels, except that a
   * single-channel array comes back without its channel axis.
   */
  function Upscaled(s: Shape): (r: Shape)
    requires NeedsUpscale(s) && 1 <= MinSide(s)
    ensures r.depth == if s.depth == Channels(1) then NoChannelAxis else s.depth
    ensures r.width >= s.width && r.height >= s.height
    ensures MinSide(r) == MinSize
    ensures r.width * MinSide(s) <= s.width * MinSize < (r.width + 1) * MinSide(s)
    ensures r.height * MinSide(s) <= s.height * MinSize < (r.height + 1) * MinSide(s)
  {
    var m := MinSide(s);
    ScaledSideBounds(s.width, m);
    ScaledSideBounds(s.height, m);
    Shape(ScaledSide(s.height, m), ScaledSide(s.width, m), if s.depth == Channels(1) then NoChannelAxis else s.depth)
  }

  /**
   * The shape `preprocess_image` returns when the stage `fault` (if any)
   * raises. Only the dimensions and the channel axis are modelled; the
   * pixels go through opaque, size-preserving library calls. The colour
   * conversion also raises on an empty array, and the enhancement on an
   * array with neither 3 nor 4 channels, whatever `fault` says.
   */
  function Preprocess(img: Shape, fault: Option<Stage>): (r: Shape)
  {
    if Converts(img) && (MinSide(img) == 0 || fault == Some(ColourConversion)) then img
    else
      var converted := if Converts(img) then Shape(img.height, img.width, Channels(3)) else img;
      if NeedsUpscale(converted) && (MinSide(converted) == 0 || fault == Some(Resize)) then converted
      else
        var resized := if NeedsUpscale(converted) then Upscaled(converted) else converted;
        if fault == Some(Enhancement) || !Enhanceable(resized) then resized
        else Shape(resized.height, resized.width, Channels(3))
  }

  /**
   * Whatever stage raises, `preprocess_image` returns an image, and no
   * side ever shrinks.
   */
  lemma PreprocessNeverShrinks(img: Shape, fault: Option<Stage>)
    ensures Preprocess(img, fault).width >= img.width
    ensures Preprocess(img, fault).height >= img.height
  {
  }

  /** An image whose sides are both at least `MinSize` keeps its size. */
  lemma PreprocessKeepsLargeSize(img: Shape, fault: Option<Stage>)
    requires img.width >= MinSize && img.height >= MinSize
    ensures Preprocess(img, fault).width == img.width
    ensures Preprocess(img, fault).height == img.height
  {
  }

  /**
   * Without a failing stage, a small non-empty image is scaled by
   * `MinSize / min(width, height)` with truncation: the smaller side becomes
   * exactly `MinSize` and the other side is the truncated product. The
   * result has three channels when the enhancement accepts the resized
   * array; otherwise the enhancement raises and the resized array is
   * returned, a single-channel one without its channel axis.
   */
  lemma PreprocessUpscales(img: Shape)
    requires NeedsUpscale(img) && MinSide(img) >= 1
    ensures var r := Preprocess(img, None); var m := MinSide(img);
      && (Converts(img) || img.depth == Channels(4) ==> r.depth == Channels(3))
      && (!Converts(img) && img.depth != Channels(4) ==>
            r.depth == if img.depth == Channels(1) then NoChannelAxis else img.depth)
      && MinSide(r) == MinSize
      && r.width * m <= img.width * MinSize < (r.width + 1) * m
      && r.height * m <= img.height * MinSize < (r.height + 1) * m
  {
  }

  /**
   * A failing stage returns the image as it stood when that stage began:
   * the input, the converted image, or the converted and resized image.
   */
  lemma PreprocessFaults(img: Shape)
    ensures Converts(img) ==> Preprocess(img, Some(ColourConversion)) == img
    ensures var converted := Shape(img.height, img.width, if Converts(img) then Channels(3) else img.depth);
      NeedsUpscale(img) && MinSide(img) >= 1 ==> Preprocess(img, Some(Resize)) == converted
    ensures var converted := Shape(img.height, img.width, if Converts(img) then Channels(3) else img.depth);
      NeedsUpscale(img) && MinSide(img) >= 1 ==> Preprocess(img, Some(Enhancement)) == Upscaled(converted)
    ensures !NeedsUpscale(img) ==>
      Preprocess(img, Some(Enhancement)) == Shape(img.height, img.width, if Converts(img) then Channels(3) else img.depth)
  {
  }

  /**
   * An array with neither 3 nor 4 channels that the conversion leaves alone
   * always makes the enhancement raise: with or without a failing
   * enhancement the result is the same, and an array large enough to skip
   * the resize comes back untouched.
   */
  lemma PreprocessUnenhanceable(img: Shape)
    requires !Converts(img) && img.depth != Channels(4)
    ensures Preprocess(img, None) == Preprocess(img, Some(Enhancement))
    ensures !NeedsUpscale(img) ==> Preprocess(img, None) == img
  {
  }

  /**
   * An empty image comes back unchanged, whichever stage is set to fail:
   * a grayscale or three-channel one makes the colour conversion raise,
   * any other one reaches the scale factor and divides by zero.
   */
  lemma PreprocessEmptyImage(img: Shape, fault: Option<Stage>)
    requires MinSide(img) == 0
    ensures Preprocess(img, fault) == img
  {
  }
}
