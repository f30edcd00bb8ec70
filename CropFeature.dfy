/**
 * Feature-image cropping (build_utils/crop_feature.py): the sliding-window
 * search for the most detailed 3:1 crop, the save-option table and the
 * naming rule that keeps cropped outputs out of later scans.
 *
 * Pixels are not modelled: the entropy of a window is an arbitrary function
 * `entropy` from the window's box to a real score.
 */
module CropFeature {
  import opened Wrappers

  /** `ASPECT_RATIO`: width over height of a feature crop. */
  const AspectRatio: nat := 3

  /** A PIL crop box `(left, top, right, bottom)`. */
  datatype Box = Box(left: int, top: int, right: int, bottom: int)

  /** A candidate window and its entropy, the pair `(entropy, crop_box)`. */
  datatype Region = Region(entropy: real, box: Box)

  /** `max(1, raw)`: the window stride, `raw` being `int(step * dimension)`. */
  function Stride(raw: int): (s: nat)
    ensures s >= 1 && s >= raw
    ensures raw >= 1 ==> s == raw
    ensures raw < 1 ==> s == 1
  {
    if raw > 1 then raw else 1
  }

  /** `range(start, stop, step)` for a positive step. */
  function Range(start: int, stop: int, step: nat): (r: seq<int>)
    requires step >= 1
    ensures r != [] <==> start < stop
    decreases stop - start
  {
    if start >= stop then [] else [start] + Range(start + step, stop, step)
  }

  /** The offsets a window slides through start at `start` and end at the first value within a step of `stop`. */
  lemma {:induction false} RangeEnds(start: int, stop: int, step: nat)
    requires step >= 1
    ensures Range(start, stop, step) != [] ==>
      Range(start, stop, step)[0] == start &&
      Range(start, stop, step)[|Range(start, stop, step)| - 1] < stop <= Range(start, stop, step)[|Range(start, stop, step)| - 1] + step
    decreases stop - start
  {
    if start < stop {
      var r := Range(start, stop, step);
      var rest := Range(start + step, stop, step);
      assert r == [start] + rest;
      RangeEnds(start + step, stop, step);
      if rest != [] {
        assert r[|r| - 1] == rest[|rest| - 1];
      }
    }
  }

  /** Every offset lies in `[start, stop)`. */
  lemma {:induction false} RangeBounds(start: int, stop: int, step: nat)
    requires step >= 1
    ensures forall i :: 0 <= i < |Range(start, stop, step)| ==> start <= Range(start, stop, step)[i] < stop
    decreases stop - start
  {
    if start < stop {
      var r := Range(start, stop, step);
      var rest := Range(start + step, stop, step);
      assert r == [start] + rest;
      RangeBounds(start + step, stop, step);
      forall i | 0 < i < |r|
        ensures start <= r[i] < stop
      {
        assert r[i] == rest[i - 1];
      }
    }
  }

  /** Consecutive offsets are one step apart. */
  lemma {:induction false} RangeSteps(start: int, stop: int, step: nat)
    requires step >= 1
    ensures forall i :: 0 <= i < |Range(start, stop, step)| - 1 ==>
      Range(start, stop, step)[i + 1] == Range(start, stop, step)[i] + step
    decreases stop - start
  {
    if start < stop {
      var r := Range(start, stop, step);
      var rest := Range(start + step, stop, step);
      assert r == [start] + rest;
      RangeSteps(start + step, stop, step);
      forall i | 0 <= i < |r| - 1
        ensures r[i + 1] == r[i] + step
      {
        if i == 0 {
          assert rest[0] == start + step;
        } else {
          assert r[i] == rest[i - 1] && r[i + 1] == rest[i];
        }
      }
    }
  }

  /** The full-width windows of height `winH` at each of `tops`. */
  function HorizontalWindows(w: int, winH: int, tops: seq<int>): (r: seq<Box>)
    ensures |r| == |tops|
  {
    if tops == [] then [] else [Box(0, tops[0], w, tops[0] + winH)] + HorizontalWindows(w, winH, tops[1..])
  }

  /** The full-height windows of width `winW` at each of `lefts`. */
  function VerticalWindows(h: int, winW: int, lefts: seq<int>): (r: seq<Box>)
    ensures |r| == |lefts|
  {
    if lefts == [] then [] else [Box(lefts[0], 0, lefts[0] + winW, h)] + VerticalWindows(h, winW, lefts[1..])
  }

  /**
   * The windows of a `w` by `h` image, in the order they are tried: first
   * full-width windows `winH` high sliding down, if they fit, then
   * full-height windows `winW` wide sliding right, if they fit.
   */
  function Windows(w: nat, h: nat, winH: nat, winW: nat, rowStride: nat, colStride: nat): (r: seq<Box>)
    requires rowStride >= 1 && colStride >= 1
    ensures |r| == (if winH <= h then |Range(0, h - winH + 1, rowStride)| else 0) +
                   (if winW <= w then |Range(0, w - winW + 1, colStride)| else 0)
    ensures r != [] <==> winH <= h || winW <= w
  {
    (if winH <= h then HorizontalWindows(w, winH, Range(0, h - winH + 1, rowStride)) else []) +
    (if winW <= w then VerticalWindows(h, winW, Range(0, w - winW + 1, colStride)) else [])
  }

  /**
   * Whatever the image's size, one of the two windows fits: if the
   * full-width window `w / aspect` high is taller than the image, the
   * full-height window `h * aspect` wide is no wider than it.
   */
  lemma AspectFits(w: nat, h: nat, aspect: nat)
    requires aspect >= 1
    ensures w / aspect <= h || h * aspect <= w
  {
    var winH := w / aspect;
    if winH > h {
      // w >= aspect * winH >= aspect * (h + 1) > h * aspect
      assert aspect * winH <= w;
      assert aspect * (h + 1) <= aspect * winH;
    }
  }

  /**
   * The windows `entropy_crop_to_aspect` tries: `w / aspect` high and
   * `h * aspect` wide, with strides `max(1, rowRaw)` and `max(1, colRaw)`,
   * where `rowRaw` and `colRaw` stand for `int(step * h)` and `int(step * w)`.
   * There is always at least one, so the "too small" error is never raised.
   */
  function CropWindows(w: nat, h: nat, aspect: nat, rowRaw: int, colRaw: int): (r: seq<Box>)
    requires aspect >= 1
    ensures r != []
  {
    AspectFits(w, h, aspect);
    Windows(w, h, w / aspect, h * aspect, Stride(rowRaw), Stride(colRaw))
  }

  /** Each box paired with its entropy. */
  function Scored(boxes: seq<Box>, entropy: Box -> real): (r: seq<Region>)
    ensures |r| == |boxes|
  {
    if boxes == [] then [] else [Region(entropy(boxes[0]), boxes[0])] + Scored(boxes[1..], entropy)
  }

  lemma {:induction false} ScoredAt(boxes: seq<Box>, entropy: Box -> real, i: nat)
    requires i < |boxes|
    ensures Scored(boxes, entropy)[i] == Region(entropy(boxes[i]), boxes[i])
    decreases i
  {
    if i > 0 {
      ScoredAt(boxes[1..], entropy, i - 1);
    }
  }

  lemma {:induction false} ScoredAppend(a: seq<Box>, b: seq<Box>, entropy: Box -> real)
    ensures Scored(a + b, entropy) == Scored(a, entropy) + Scored(b, entropy)
    decreases a
  {
    if a == [] {
      assert a + b == b;
    } else {
      assert (a + b)[1..] == a[1..] + b;
      ScoredAppend(a[1..], b, entropy);
    }
  }

  lemma {:induction false} HorizontalAppend(w: int, winH: int, a: seq<int>, b: seq<int>)
    ensures HorizontalWindows(w, winH, a + b) == HorizontalWindows(w, winH, a) + HorizontalWindows(w, winH, b)
    decreases a
  {
    if a == [] {
      assert a + b == b;
    } else {
      assert (a + b)[1..] == a[1..] + b;
      HorizontalAppend(w, winH, a[1..], b);
    }
  }

  lemma {:induction false} VerticalAppend(h: int, winW: int, a: seq<int>, b: seq<int>)
    ensures VerticalWindows(h, winW, a + b) == VerticalWindows(h, winW, a) + VerticalWindows(h, winW, b)
    decreases a
  {
    if a == [] {
      assert a + b == b;
    } else {
      assert (a + b)[1..] == a[1..] + b;
      VerticalAppend(h, winW, a[1..], b);
    }
  }

  /** One more offset of the downward slide adds its scored window at the end. */
  lemma HorizontalSnoc(w: int, winH: int, tops: seq<int>, i: nat, entropy: Box -> real)
    requires i < |tops|
    ensures var b := Box(0, tops[i], w, tops[i] + winH);
      Scored(HorizontalWindows(w, winH, tops[..i + 1]), entropy) ==
      Scored(HorizontalWindows(w, winH, tops[..i]), entropy) + [Region(entropy(b), b)]
  {
    assert tops[..i + 1] == tops[..i] + [tops[i]];
    HorizontalAppend(w, winH, tops[..i], [tops[i]]);
    ScoredAppend(HorizontalWindows(w, winH, tops[..i]), HorizontalWindows(w, winH, [tops[i]]), entropy);
  }

  /** One more offset of the rightward slide adds its scored window at the end. */
  lemma VerticalSnoc(h: int, winW: int, lefts: seq<int>, i: nat, entropy: Box -> real)
    requires i < |lefts|
    ensures var b := Box(lefts[i], 0, lefts[i] + winW, h);
      Scored(VerticalWindows(h, winW, lefts[..i + 1]), entropy) ==
      Scored(VerticalWindows(h, winW, lefts[..i]), entropy) + [Region(entropy(b), b)]
  {
    assert lefts[..i + 1] == lefts[..i] + [lefts[i]];
    VerticalAppend(h, winW, lefts[..i], [lefts[i]]);
    ScoredAppend(VerticalWindows(h, winW, lefts[..i]), VerticalWindows(h, winW, [lefts[i]]), entropy);
  }

  /**
   * The index `max(regions, key=entropy)` picks: a region of greatest
   * entropy, and the first one when several tie.
   */
  function FirstMax(regions: seq<Region>): (k: nat)
    requires regions != []
    ensures k < |regions|
    ensures forall j :: 0 <= j < |regions| ==> regions[j].entropy <= regions[k].entropy
    ensures forall j :: 0 <= j < k ==> regions[j].entropy < regions[k].entropy
  {
    if |regions| == 1 then 0
    else
      var k := FirstMax(regions[..|regions| - 1]);
      if regions[|regions| - 1].entropy > regions[k].entropy then |regions| - 1 else k
  }

  /** The box lies within a `w` by `h` image. */
  predicate InsideImage(b: Box, w: int, h: int)
  {
    0 <= b.left <= b.right <= w && 0 <= b.top <= b.bottom <= h
  }

  /** A full-width window `winH` high. */
  predicate FullWidth(b: Box, w: int, winH: int)
  {
    b.left == 0 && b.right == w && b.bottom - b.top == winH
  }

  /** A full-height window `winW` wide. */
  predicate FullHeight(b: Box, h: int, winW: int)
  {
    b.top == 0 && b.bottom == h && b.right - b.left == winW
  }

  lemma {:induction false} HorizontalWindowsFit(w: nat, h: nat, winH: nat, tops: seq<int>)
    requires forall i :: 0 <= i < |tops| ==> 0 <= tops[i] && tops[i] + winH <= h
    ensures forall b :: b in HorizontalWindows(w, winH, tops) ==> InsideImage(b, w, h) && FullWidth(b, w, winH)
    decreases tops
  {
    if tops != [] {
      HorizontalWindowsFit(w, h, winH, tops[1..]);
    }
  }

  lemma {:induction false} VerticalWindowsFit(w: nat, h: nat, winW: nat, lefts: seq<int>)
    requires forall i :: 0 <= i < |lefts| ==> 0 <= lefts[i] && lefts[i] + winW <= w
    ensures forall b :: b in VerticalWindows(h, winW, lefts) ==> InsideImage(b, w, h) && FullHeight(b, h, winW)
    decreases lefts
  {
    if lefts != [] {
      VerticalWindowsFit(w, h, winW, lefts[1..]);
    }
  }

  /**
   * Every window lies inside the image and is either full-width and `winH`
   * high, or full-height and `winW` wide.
   */
  lemma WindowsFit(w: nat, h: nat, winH: nat, winW: nat, rowStride: nat, colStride: nat)
    requires rowStride >= 1 && colStride >= 1
    ensures forall b :: b in Windows(w, h, winH, winW, rowStride, colStride) ==>
      InsideImage(b, w, h) && (FullWidth(b, w, winH) || FullHeight(b, h, winW))
  {
    if winH <= h {
      RangeBounds(0, h - winH + 1, rowStride);
      HorizontalWindowsFit(w, h, winH, Range(0, h - winH + 1, rowStride));
    }
    if winW <= w {
      RangeBounds(0, w - winW + 1, colStride);
      VerticalWindowsFit(w, h, winW, Range(0, w - winW + 1, colStride));
    }
  }

  /**
   * For the crop: every window lies inside the image and is either the full
   * width and `w / aspect` high or the full height and `h * aspect` wide.
   */
  lemma CropWindowsFit(w: nat, h: nat, aspect: nat, rowRaw: int, colRaw: int)
    requires aspect >= 1
    ensures forall b :: b in CropWindows(w, h, aspect, rowRaw, colRaw) ==>
      InsideImage(b, w, h) && (FullWidth(b, w, w / aspect) || FullHeight(b, h, h * aspect))
  {
    WindowsFit(w, h, w / aspect, h * aspect, Stride(rowRaw), Stride(colRaw));
  }

  /** The box `entropy_crop_to_aspect` selects: the first scored window of greatest entropy. */
  function BestBox(w: nat, h: nat, aspect: nat, rowRaw: int, colRaw: int, entropy: Box -> real): (b: Box)
    requires aspect >= 1
    ensures b in CropWindows(w, h, aspect, rowRaw, colRaw)
  {
    var boxes := CropWindows(w, h, aspect, rowRaw, colRaw);
    var regions := Scored(boxes, entropy);
    var k := FirstMax(regions);
    ScoredAt(boxes, entropy, k);
    regions[k].box
  }

  /**
   * The window the crop picks is one of the candidate windows, lies inside
   * the image with the crop's shape, scores at least as high as every
   * candidate, and strictly higher than every candidate tried before it.
   */
  lemma BestCrop(w: nat, h: nat, aspect: nat, rowRaw: int, colRaw: int, entropy: Box -> real)
    requires aspect >= 1
    ensures var boxes := CropWindows(w, h, aspect, rowRaw, colRaw);
      var b := BestBox(w, h, aspect, rowRaw, colRaw, entropy);
      exists k :: 0 <= k < |boxes| && b == boxes[k] &&
        (forall j :: 0 <= j < k ==> entropy(boxes[j]) < entropy(b))
    ensures var b := BestBox(w, h, aspect, rowRaw, colRaw, entropy);
      InsideImage(b, w, h) && (FullWidth(b, w, w / aspect) || FullHeight(b, h, h * aspect))
    ensures forall c :: c in CropWindows(w, h, aspect, rowRaw, colRaw) ==>
      entropy(c) <= entropy(BestBox(w, h, aspect, rowRaw, colRaw, entropy))
  {
    var boxes := CropWindows(w, h, aspect, rowRaw, colRaw);
    var regions := Scored(boxes, entropy);
    var k := FirstMax(regions);
    ScoredAt(boxes, entropy, k);
    CropWindowsFit(w, h, aspect, rowRaw, colRaw);
    forall j | 0 <= j < |boxes|
      ensures regions[j].entropy == entropy(boxes[j])
    {
      ScoredAt(boxes, entropy, j);
    }
    forall c | c in boxes
      ensures entropy(c) <= entropy(regions[k].box)
    {
      var j :| 0 <= j < |boxes| && boxes[j] == c;
      assert regions[j].entropy == entropy(c);
    }
  }

  /**
   * At the script's `ASPECT_RATIO` the chosen crop lies inside the image and
   * is three times as wide as it is high, up to the truncation of `w / 3`.
   */
  lemma FeatureCropIsThreeToOne(w: nat, h: nat, rowRaw: int, colRaw: int, entropy: Box -> real)
    ensures var b := BestBox(w, h, AspectRatio, rowRaw, colRaw, entropy);
      InsideImage(b, w, h) &&
      AspectRatio * (b.bottom - b.top) <= b.right - b.left < AspectRatio * (b.bottom - b.top) + AspectRatio
  {
    BestCrop(w, h, AspectRatio, rowRaw, colRaw, entropy);
  }

  /** The scored windows are the scored downward slide followed by the scored rightward slide. */
  lemma CropRegions(w: nat, h: nat, aspect: nat, rowRaw: int, colRaw: int, entropy: Box -> real)
    requires aspect >= 1
    ensures Scored(CropWindows(w, h, aspect, rowRaw, colRaw), entropy) ==
      (if w / aspect <= h then Scored(HorizontalWindows(w, w / aspect, Range(0, h - w / aspect + 1, Stride(rowRaw))), entropy) else []) +
      (if h * aspect <= w then Scored(VerticalWindows(h, h * aspect, Range(0, w - h * aspect + 1, Stride(colRaw))), entropy) else [])
  {
    var hs := if w / aspect <= h then HorizontalWindows(w, w / aspect, Range(0, h - w / aspect + 1, Stride(rowRaw))) else [];
    var vs := if h * aspect <= w then VerticalWindows(h, h * aspect, Range(0, w - h * aspect + 1, Stride(colRaw))) else [];
    ScoredAppend(hs, vs, entropy);
  }

  /**
   * `entropy_crop_to_aspect`: collects every window with its entropy, then
   * returns the box of the first window of greatest entropy.  The error for
   * an image too small for any window is modelled, and proved unreachable.
   */
  method EntropyCropToAspect(w: nat, h: nat, aspect: nat, rowRaw: int, colRaw: int, entropy: Box -> real)
    returns (r: Result<Box>)
    requires aspect >= 1
    ensures r == Ok(BestBox(w, h, aspect, rowRaw, colRaw, entropy))
  {
    var cropH1 := w / aspect;
    var cropW2 := h * aspect;

    // Horizontal crop: fix the width, slide the window down.
    var down: seq<Region> := [];
    if cropH1 <= h {
      down := SlideDown(w, cropH1, h - cropH1, Stride(rowRaw), entropy);
    }

    // Vertical crop: fix the height, slide the window right.
    var right: seq<Region> := [];
    if cropW2 <= w {
      right := SlideRight(h, cropW2, w - cropW2, Stride(colRaw), entropy);
    }

    var regions := down + right;
    CropRegions(w, h, aspect, rowRaw, colRaw, entropy);
    assert regions == Scored(CropWindows(w, h, aspect, rowRaw, colRaw), entropy);
    if regions == [] {
      return Err("Image is too small for desired aspect ratio crop.");
    }

    // Select the window with the highest entropy.
    var best := SelectBest(regions);
    r := Ok(regions[best].box);
  }

  /** The first loop: full-width windows `winH` high at `top` in `range(0, maxRow + 1, stride)`. */
  method SlideDown(w: nat, winH: nat, maxRow: nat, stride: nat, entropy: Box -> real) returns (regions: seq<Region>)
    requires stride >= 1
    ensures regions == Scored(HorizontalWindows(w, winH, Range(0, maxRow + 1, stride)), entropy)
  {
    var tops := Range(0, maxRow + 1, stride);
    regions := [];
    for i := 0 to |tops|
      invariant regions == Scored(HorizontalWindows(w, winH, tops[..i]), entropy)
    {
      var top := tops[i];
      var cropBox := Box(0, top, w, top + winH);
      HorizontalSnoc(w, winH, tops, i, entropy);
      regions := regions + [Region(entropy(cropBox), cropBox)];
    }
    assert tops[..|tops|] == tops;
  }

  /** The second loop: full-height windows `winW` wide at `left` in `range(0, maxCol + 1, stride)`. */
  method SlideRight(h: nat, winW: nat, maxCol: nat, stride: nat, entropy: Box -> real) returns (regions: seq<Region>)
    requires stride >= 1
    ensures regions == Scored(VerticalWindows(h, winW, Range(0, maxCol + 1, stride)), entropy)
  {
    var lefts := Range(0, maxCol + 1, stride);
    regions := [];
    for i := 0 to |lefts|
      invariant regions == Scored(VerticalWindows(h, winW, lefts[..i]), entropy)
    {
      var left := lefts[i];
      var cropBox := Box(left, 0, left + winW, h);
      VerticalSnoc(h, winW, lefts, i, entropy);
      regions := regions + [Region(entropy(cropBox), cropBox)];
    }
    assert lefts[..|lefts|] == lefts;
  }

  /** `max(regions, key=lambda x: x[0])`, as an index: a single scan keeping the first maximum. */
  method SelectBest(regions: seq<Region>) returns (best: nat)
    requires regions != []
    ensures best == FirstMax(regions)
  {
    best := 0;
    var i := 1;
    while i < |regions|
      invariant 1 <= i <= |regions|
      invariant best == FirstMax(regions[..i])
    {
      assert regions[..i + 1][..i] == regions[..i];
      if regions[i].entropy > regions[best].entropy {
        best := i;
      }
      i := i + 1;
    }
    assert regions[..|regions|] == regions;
  }

  /** The keyword arguments `get_save_options` passes to `Image.save`; `None` means the key is absent. */
  datatype SaveOptions = SaveOptions(
    format: string,
    quality: Option<int>,
    optimize: bool,
    progressive: Option<bool>,
    compressLevel: Option<int>)

  /** `st_size / 1024`: the file size in KB, as the script measures it. */
  function SizeKb(bytes: nat): real
  {
    bytes as real / 1024.0
  }

  /** The JPEG quality for a file of `sizeKb` KB: lower for larger files. */
  function JpegQuality(sizeKb: real): (q: int)
    ensures q == 85 <==> sizeKb > 1000.0
    ensures q == 90 <==> 500.0 < sizeKb <= 1000.0
    ensures q == 95 <==> sizeKb <= 500.0
  {
    if sizeKb > 1000.0 then 85
    else if sizeKb > 500.0 then 90
    else 95
  }

  /** `get_save_options(format_type, file_size_kb)`. */
  function GetSaveOptions(format: string, sizeKb: real): (o: SaveOptions)
    ensures o.optimize && o.format == format
    ensures format == "JPEG" ==> o.quality == Some(JpegQuality(sizeKb)) && o.progressive == Some(true) && o.compressLevel.None?
    ensures format == "PNG" ==> o.compressLevel == Some(6) && o.quality.None? && o.progressive.None?
    ensures format == "WEBP" ==> o.quality == Some(85) && o.progressive.None? && o.compressLevel.None?
    ensures format !in {"JPEG", "PNG", "WEBP"} ==> o == SaveOptions(format, None, true, None, None)
  {
    if format == "JPEG" then SaveOptions("JPEG", Some(JpegQuality(sizeKb)), true, Some(true), None)
    else if format == "PNG" then SaveOptions("PNG", None, true, None, Some(6))
    else if format == "WEBP" then SaveOptions("WEBP", Some(85), true, None, None)
    else SaveOptions(format, None, true, None, None)
  }

  /** JPEG quality never rises as the file grows. */
  lemma JpegQualityNonIncreasing(smaller: nat, larger: nat)
    requires smaller <= larger
    ensures GetSaveOptions("JPEG", SizeKb(larger)).quality.value <= GetSaveOptions("JPEG", SizeKb(smaller)).quality.value
  {
    assert SizeKb(smaller) <= SizeKb(larger);
  }

  /** The thresholds in bytes: above 1,024,000 bytes quality 85, above 512,000 bytes 90, else 95. */
  lemma JpegQualityByBytes(bytes: nat)
    ensures bytes > 1024000 ==> JpegQuality(SizeKb(bytes)) == 85
    ensures 512000 < bytes <= 1024000 ==> JpegQuality(SizeKb(bytes)) == 90
    ensures bytes <= 512000 ==> JpegQuality(SizeKb(bytes)) == 95
  {
    assert bytes > 1024000 <==> SizeKb(bytes) > 1000.0;
    assert bytes > 512000 <==> SizeKb(bytes) > 500.0;
  }

  /** A path: its parent directory as written (`""` for none) and its last component. */
  datatype FilePath = FilePath(parent: string, name: string)

  /** The text `str(path)` puts before the name: the parent and a `/` unless it is empty or already ends in one. */
  function DirPrefix(parent: string): string
  {
    if parent == "" then ""
    else if parent[|parent| - 1] == '/' then parent
    else parent + "/"
  }

  /** `str(path)` with `/` as separator. */
  function PathString(p: FilePath): (r: string)
    ensures |p.name| <= |r| && r[|r| - |p.name|..] == p.name
    ensures p.parent == "" ==> r == p.name
  {
    DirPrefix(p.parent) + p.name
  }

  /** The index of the last `.` in `name`, if any. */
  function LastDot(name: string): (r: Option<nat>)
    ensures r.Some? ==> r.value < |name| && name[r.value] == '.'
    ensures r.Some? ==> forall j :: r.value < j < |name| ==> name[j] != '.'
    ensures r.None? ==> '.' !in name
  {
    if name == [] then None
    else if name[|name| - 1] == '.' then Some(|name| - 1)
    else LastDot(name[..|name| - 1])
  }

  /** pathlib's `suffix`: from the last dot on, unless that dot starts or ends the name. */
  function Suffix(name: string): (s: string)
    ensures |s| <= |name| && s == name[|name| - |s|..]
    ensures s == "" || (|s| >= 2 && s[0] == '.')
  {
    var i := LastDot(name);
    if i.Some? && 0 < i.value < |name| - 1 then name[i.value..] else ""
  }

  /** pathlib's `stem`: the name without its suffix. */
  function Stem(name: string): (s: string)
    ensures |s| <= |name| && s == name[..|s|]
  {
    var i := LastDot(name);
    if i.Some? && 0 < i.value < |name| - 1 then name[..i.value] else name
  }

  /** A name is its stem followed by its suffix. */
  lemma StemThenSuffix(name: string)
    ensures Stem(name) + Suffix(name) == name
    ensures Suffix(name) == "" || (Suffix(name)[0] == '.' && '.' !in Suffix(name)[1..] && Stem(name) != "")
  {
    var i := LastDot(name);
    if i.Some? && 0 < i.value < |name| - 1 {
      assert name[..i.value] + name[i.value..] == name;
      forall j | 0 <= j < |name[i.value..][1..]|
        ensures name[i.value..][1..][j] != '.'
      {
        assert name[i.value..][1..][j] == name[i.value + 1 + j];
      }
    }
  }

  /**
   * When a name has a suffix: exactly when it is at least two characters
   * long, does not end in a dot, and has a dot after its first character.
   */
  lemma SuffixWhenInnerDot(name: string)
    ensures Suffix(name) != "" <==> |name| >= 2 && name[|name| - 1] != '.' && '.' in name[1..]
  {
    if |name| >= 2 && name[|name| - 1] != '.' && '.' in name[1..] {
      var e :| 0 <= e < |name[1..]| && name[1..][e] == '.';
      assert name[1 + e] == '.';
    }
  }

  /** `im_path.with_name(f"{im_path.stem}_crop{im_path.suffix}")`. */
  function OutputPath(p: FilePath): (r: FilePath)
    ensures r.parent == p.parent
    ensures |r.name| == |p.name| + 5
    ensures Suffix(p.name) == "" ==> r.name == p.name + "_crop"
  {
    StemThenSuffix(p.name);
    p.(name := Stem(p.name) + "_crop" + Suffix(p.name))
  }

  /** `sub in s` for strings. */
  predicate Contains(s: string, sub: string)
    decreases |s|
  {
    |sub| <= |s| && (s[..|sub|] == sub || Contains(s[1..], sub))
  }

  lemma {:induction false} ContainsAt(s: string, sub: string, i: nat)
    requires i + |sub| <= |s| && s[i..i + |sub|] == sub
    ensures Contains(s, sub)
    decreases i
  {
    if i > 0 {
      assert s[1..][i - 1..i - 1 + |sub|] == sub;
      ContainsAt(s[1..], sub, i - 1);
    }
  }

  /**
   * The output sits next to the original and, when the original has a
   * suffix, keeps it, with `_crop` added to the stem.
   */
  lemma OutputNameKeepsSuffix(p: FilePath)
    requires Suffix(p.name) != ""
    ensures OutputPath(p).parent == p.parent
    ensures Suffix(OutputPath(p).name) == Suffix(p.name)
    ensures Stem(OutputPath(p).name) == Stem(p.name) + "_crop"
  {
    var i := LastDot(p.name).value;
    var stem, suffix := p.name[..i], p.name[i..];
    var out := stem + "_crop" + suffix;
    assert out == OutputPath(p).name;
    var k := |stem| + 5;
    assert out[k] == '.';
    forall j | k < j < |out|
      ensures out[j] != '.'
    {
      assert out[j] == p.name[j - 5];
    }
    var d := LastDot(out);
    assert d.Some? by {
      assert out[k] in out;
    }
    assert d.value >= k by {
      assert out[k] == '.';
    }
    assert d.value <= k by {
      assert out[d.value] == '.';
    }
    assert out[..k] == stem + "_crop" && out[k..] == suffix;
  }

  /** A string with `_crop` in it contains `"crop"`. */
  lemma ContainsCropTag(x: string, y: string)
    ensures Contains(x + "_crop" + y, "crop")
  {
    var s := x + "_crop" + y;
    assert s[|x| + 1..|x| + 5] == "crop";
    ContainsAt(s, "crop", |x| + 1);
  }

  /** Every output path contains `"crop"`. */
  lemma OutputContainsCrop(p: FilePath)
    ensures Contains(PathString(OutputPath(p)), "crop")
  {
    var prefix, stem, suffix := DirPrefix(p.parent), Stem(p.name), Suffix(p.name);
    assert PathString(OutputPath(p)) == (prefix + stem) + "_crop" + suffix;
    ContainsCropTag(prefix + stem, suffix);
  }

  /** The last component matches the glob `feature_*.*`: the prefix `feature_`, then a dot somewhere after it. */
  predicate MatchesFeatureGlob(name: string): (b: bool)
    ensures b <==> |name| >= 9 && name[..8] == "feature_" && LastDot(name).Some? && LastDot(name).value >= 8
  {
    |name| >= 9 && name[..8] == "feature_" && '.' in name[8..]
  }

  /**
   * `get_feature_images`: of the paths under the root, in the order the
   * walk yields them, those whose name matches `feature_*.*`; a path whose
   * text contains `"crop"` is skipped, and the rest kept if they are files.
   */
  function FeatureImages(walk: seq<FilePath>, isFile: FilePath -> bool): (r: seq<FilePath>)
    ensures forall p :: p in r <==>
      p in walk && MatchesFeatureGlob(p.name) && !Contains(PathString(p), "crop") && isFile(p)
  {
    if walk == [] then []
    else
      var p := walk[0];
      var rest := FeatureImages(walk[1..], isFile);
      assert walk == [p] + walk[1..];
      if !MatchesFeatureGlob(p.name) then rest
      else if Contains(PathString(p), "crop") then rest
      else if isFile(p) then [p] + rest
      else rest
  }

  /**
   * The output of a feature image also matches the glob, so it is only the
   * `"crop"` rule that keeps it out of a later scan.
   */
  lemma OutputMatchesGlob(p: FilePath)
    requires MatchesFeatureGlob(p.name)
    ensures MatchesFeatureGlob(OutputPath(p).name)
  {
    var name := p.name;
    var out := OutputPath(p).name;
    var d :| 8 <= d < |name| && name[d] == '.' by {
      var e :| 0 <= e < |name[8..]| && name[8..][e] == '.';
      assert name[8 + e] == '.';
    }
    var i := LastDot(name);
    assert i.Some? && i.value >= d;
    if 0 < i.value < |name| - 1 {
      assert out == name[..i.value] + "_crop" + name[i.value..];
      assert out[..8] == name[..8];
      assert out[8..][i.value + 5 - 8] == '.';
    } else {
      assert out == name + "_crop";
      assert out[..8] == name[..8];
      assert out[8..][d - 8] == '.';
    }
  }

  /** A cropped output is never picked up again by a later scan. */
  lemma OutputsNeverRescanned(walk: seq<FilePath>, isFile: FilePath -> bool, p: FilePath)
    ensures OutputPath(p) !in FeatureImages(walk, isFile)
  {
    OutputContainsCrop(p);
  }
}
