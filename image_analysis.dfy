/**
 * The pixel part of the flat-colour icon classifier.
 *
 * The input is an already decoded (and resized) RGBA buffer: four bytes per
 * pixel in scan order, red, green, blue, alpha. Two passes over it decide
 * whether the image is a simple one-colour icon on a transparent background:
 * pass 1 builds a histogram of the exact colours of the opaque pixels and
 * keeps a running maximum that fixes the dominant colour; pass 2 counts the
 * opaque pixels close to that colour. Every floating-point test of the
 * classifier has an exact integer form, and that form is what the model uses;
 * the lemmas at the end relate the two readings.
 */
module ImageAnalysis {
  import opened Wrappers
  import opened ColorFormat

  /** A pixel is opaque when its alpha exceeds this value. */
  const AlphaThreshold: int := 128
  /** Two colours are similar when their Euclidean RGB distance is below this value. */
  const ColorThreshold: int := 30
  /** The decoded image must have this many channels (RGBA). */
  const RequiredChannels: int := 4

  /** What the classifier reports; `mainColor` is `#rrggbb` or absent (`null`). */
  datatype AnalysisResult = AnalysisResult(
    isSimpleIcon: bool,
    mainColor: Option<string>,
    isDark: bool,
    needsAdaptation: bool)

  /** The single "not a simple icon" answer every rejecting path returns. */
  const NotSimple: AnalysisResult := AnalysisResult(false, None, false, false)

  // ---------------------------------------------------------------------
  // The buffer, pixel by pixel
  // ---------------------------------------------------------------------

  predicate IsOpaque(s: seq<byte>, p: nat)
    requires 4 * p + 3 < |s|
  {
    s[4 * p + 3] > AlphaThreshold
  }

  function ColorAt(s: seq<byte>, p: nat): Color
    requires 4 * p + 3 < |s|
  {
    Color(s[4 * p], s[4 * p + 1], s[4 * p + 2])
  }

  /** The number of opaque pixels among the first `n`. */
  function OpaqueCount(s: seq<byte>, n: nat): (k: nat)
    requires 4 * n <= |s|
    ensures k <= n
  {
    if n == 0 then 0
    else OpaqueCount(s, n - 1) + (if IsOpaque(s, n - 1) then 1 else 0)
  }

  /** The colours of the opaque pixels among the first `n`, with multiplicity. */
  function Histogram(s: seq<byte>, n: nat): multiset<Color>
    requires 4 * n <= |s|
  {
    if n == 0 then multiset{}
    else Histogram(s, n - 1) + (if IsOpaque(s, n - 1) then multiset{ColorAt(s, n - 1)} else multiset{})
  }

  /** The histogram counts add up to the number of opaque pixels. */
  lemma {:induction false} HistogramSize(s: seq<byte>, n: nat)
    requires 4 * n <= |s|
    ensures |Histogram(s, n)| == OpaqueCount(s, n)
  {
    if n > 0 {
      HistogramSize(s, n - 1);
    }
  }

  /** The number of opaque pixels among the first `n` whose colour is exactly `c`. */
  function ColorCount(s: seq<byte>, n: nat, c: Color): nat
    requires 4 * n <= |s|
  {
    if n == 0 then 0
    else ColorCount(s, n - 1, c) + (if IsOpaque(s, n - 1) && ColorAt(s, n - 1) == c then 1 else 0)
  }

  /** `ColorCount` reads the histogram: it is the multiplicity of `c`. */
  lemma {:induction false} HistogramCounts(s: seq<byte>, n: nat, c: Color)
    requires 4 * n <= |s|
    ensures Histogram(s, n)[c] == ColorCount(s, n, c)
  {
    if n > 0 {
      HistogramCounts(s, n - 1, c);
    }
  }

  /** The running maximum of pass 1: the chosen colour (absent before the first opaque pixel) and its count. */
  datatype Mode = Mode(color: Option<Color>, count: nat)

  /**
   * The running maximum after the first `n` pixels, following the scan: a
   * pixel's colour takes over only when its new count is STRICTLY larger
   * than the current maximum. `DominantIsMax` shows that the result is a
   * most frequent colour.
   */
  function Dominant(s: seq<byte>, n: nat): (m: Mode)
    requires 4 * n <= |s|
    ensures m.color.None? <==> OpaqueCount(s, n) == 0
    ensures m.color.None? ==> m.count == 0
  {
    if n == 0 then Mode(None, 0)
    else
      var prev := Dominant(s, n - 1);
      var key := ColorAt(s, n - 1);
      var count := ColorCount(s, n, key);
      if IsOpaque(s, n - 1) && count > prev.count then Mode(Some(key), count) else prev
  }

  /**
   * The running maximum is the histogram count of its colour, and no colour
   * occurs more often among the opaque pixels.
   */
  lemma {:induction false} DominantIsMax(s: seq<byte>, n: nat)
    requires 4 * n <= |s|
    ensures Dominant(s, n).color.Some? ==> ColorCount(s, n, Dominant(s, n).color.value) == Dominant(s, n).count
    ensures forall c :: ColorCount(s, n, c) <= Dominant(s, n).count
  {
    if n > 0 {
      DominantIsMax(s, n - 1);
    }
  }

  /** One step of the scan: the maximum never drops, and the colour changes only with it. */
  lemma DominantStep(s: seq<byte>, n: nat)
    requires 0 < n && 4 * n <= |s|
    ensures Dominant(s, n - 1).count <= Dominant(s, n).count
    ensures Dominant(s, n - 1).count == Dominant(s, n).count ==> Dominant(s, n - 1) == Dominant(s, n)
  {
  }

  /**
   * The running maximum never decreases, and once it has reached its final
   * value the chosen colour no longer changes.
   */
  lemma {:induction false} DominantSettles(s: seq<byte>, k: nat, n: nat)
    requires k <= n && 4 * n <= |s|
    ensures Dominant(s, k).count <= Dominant(s, n).count
    ensures Dominant(s, k).count == Dominant(s, n).count ==> Dominant(s, k) == Dominant(s, n)
    decreases n
  {
    if k < n {
      DominantSettles(s, k, n - 1);
      DominantStep(s, n);
      var before, last, now := Dominant(s, k), Dominant(s, n - 1), Dominant(s, n);
      assert before.count <= last.count <= now.count;
      if before.count == now.count {
        assert before == last && last == now;
      }
    }
  }

  /**
   * Ties go to scan order: at every prefix of the scan in which SOME colour
   * already has the final maximal count, the running maximum has already
   * settled on the final dominant colour. So of two colours with the same
   * final count, the one that reached that count first is chosen.
   */
  lemma DominantTieBreak(s: seq<byte>, k: nat, n: nat, c: Color)
    requires k <= n && 4 * n <= |s|
    requires ColorCount(s, k, c) == Dominant(s, n).count
    ensures Dominant(s, k) == Dominant(s, n)
  {
    DominantIsMax(s, k);
    DominantSettles(s, k, n);
  }

  /**
   * The first colour to reach the final maximum wins: if the opaque pixel `q`
   * brings its colour to the final maximal count and no colour had that
   * count before it, then that pixel's colour is the dominant one.
   */
  lemma FirstToReachWins(s: seq<byte>, q: nat, n: nat)
    requires q < n && 4 * n <= |s|
    requires IsOpaque(s, q) && ColorCount(s, q + 1, ColorAt(s, q)) == Dominant(s, n).count
    requires forall c :: ColorCount(s, q, c) < Dominant(s, n).count
    ensures Dominant(s, n).color == Some(ColorAt(s, q))
  {
    DominantTieBreak(s, q + 1, n, ColorAt(s, q));
    DominantIsMax(s, q);
  }

  // ---------------------------------------------------------------------
  // Similarity
  // ---------------------------------------------------------------------

  /** The squared Euclidean distance of two colours in RGB space. */
  function Dist2(c: Color, d: Color): nat
  {
    (c.r - d.r) * (c.r - d.r) + (c.g - d.g) * (c.g - d.g) + (c.b - d.b) * (c.b - d.b)
  }

  /** `distance < 30`, written without the square root. */
  predicate IsSimilar(c: Color, main: Color)
  {
    Dist2(c, main) < ColorThreshold * ColorThreshold
  }

  /** The number of opaque pixels among the first `n` that are similar to `main`. */
  function SimilarCount(s: seq<byte>, n: nat, main: Color): nat
    requires 4 * n <= |s|
  {
    if n == 0 then 0
    else SimilarCount(s, n - 1, main) + (if IsOpaque(s, n - 1) && IsSimilar(ColorAt(s, n - 1), main) then 1 else 0)
  }

  /**
   * Every pixel of the dominant colour is similar to it (distance 0) and only
   * opaque pixels are counted, so `maxCount <= similarPixels <= opaquePixels`.
   */
  lemma {:induction false} SimilarBounds(s: seq<byte>, n: nat, main: Color)
    requires 4 * n <= |s|
    ensures ColorCount(s, n, main) <= SimilarCount(s, n, main) <= OpaqueCount(s, n)
  {
    if n > 0 {
      SimilarBounds(s, n - 1, main);
      if IsOpaque(s, n - 1) && ColorAt(s, n - 1) == main {
        assert Dist2(main, main) == 0;
      }
    }
  }

  /** `maxCount <= similarPixels <= opaquePixels` for the dominant colour of pass 1. */
  lemma DominantWithinSimilar(s: seq<byte>, n: nat)
    requires 4 * n <= |s| && Dominant(s, n).color.Some?
    ensures var main := Dominant(s, n).color.value;
            Dominant(s, n).count <= SimilarCount(s, n, main) <= OpaqueCount(s, n)
  {
    DominantIsMax(s, n);
    SimilarBounds(s, n, Dominant(s, n).color.value);
  }

  // ---------------------------------------------------------------------
  // Classification
  // ---------------------------------------------------------------------

  /**
   * `similarPixels / opaquePixels > 0.85 && (totalPixels - opaquePixels) / totalPixels > 0.1`,
   * each ratio cleared of its division.
   */
  predicate IsPureColorIcon(similarPixels: nat, opaquePixels: nat, totalPixels: nat)
  {
    100 * similarPixels > 85 * opaquePixels && 10 * (totalPixels - opaquePixels) > totalPixels
  }

  /** `(0.299 r + 0.587 g + 0.114 b) / 255 < 0.5`, scaled by 255000. */
  predicate IsDark(c: Color)
  {
    299 * c.r + 587 * c.g + 114 * c.b < 127500
  }

  /**
   * The verdict for a decoded buffer of `width * height` pixels with the given
   * channel count: the definition the method `AnalyzePixels` is proved against.
   */
  function Analyze(channels: int, s: seq<byte>, width: nat, height: nat): (r: AnalysisResult)
    requires |s| == 4 * (width * height)
    ensures r.needsAdaptation == r.isSimpleIcon
    ensures r.mainColor.Some? <==> r.isSimpleIcon
    ensures !r.isSimpleIcon ==> r == NotSimple
    ensures channels != RequiredChannels ==> r == NotSimple
  {
    var n := |s| / 4;
    if channels != RequiredChannels then NotSimple
    else if OpaqueCount(s, n) == 0 then NotSimple
    else
      var main := Dominant(s, n).color.value;
      if IsPureColorIcon(SimilarCount(s, n, main), OpaqueCount(s, n), width * height)
      then AnalysisResult(true, Some(HexColor(main)), IsDark(main), true)
      else NotSimple
  }

  // ---------------------------------------------------------------------
  // The two passes and the whole analysis, as the loops they are
  // ---------------------------------------------------------------------

  /** `colorMap.get(key) || 0`. */
  function Lookup(colorMap: map<Color, nat>, key: Color): nat
  {
    if key in colorMap then colorMap[key] else 0
  }

  /** Adding one opaque pixel to the histogram bumps exactly its colour's entry. */
  lemma HistogramAdd(s: seq<byte>, p: nat, colorMap: map<Color, nat>, key: Color, updated: map<Color, nat>)
    requires 4 * p + 3 < |s| && IsOpaque(s, p) && key == ColorAt(s, p)
    requires forall c :: Lookup(colorMap, c) == ColorCount(s, p, c)
    requires updated == colorMap[key := Lookup(colorMap, key) + 1]
    ensures forall c :: Lookup(updated, c) == ColorCount(s, p + 1, c)
  {
  }

  /** A transparent pixel leaves the counts and the running maximum alone. */
  lemma TransparentStep(s: seq<byte>, p: nat)
    requires 4 * p + 3 < |s| && !IsOpaque(s, p)
    ensures OpaqueCount(s, p + 1) == OpaqueCount(s, p)
    ensures forall c :: ColorCount(s, p + 1, c) == ColorCount(s, p, c)
    ensures Dominant(s, p + 1) == Dominant(s, p)
  {
  }

  /** An opaque pixel takes over the running maximum only when its new count is strictly larger. */
  lemma OpaqueStep(s: seq<byte>, p: nat, prev: Mode, count: nat)
    requires 4 * p + 3 < |s| && IsOpaque(s, p)
    requires prev == Dominant(s, p) && count == ColorCount(s, p + 1, ColorAt(s, p))
    ensures OpaqueCount(s, p + 1) == OpaqueCount(s, p) + 1
    ensures Dominant(s, p + 1) == if count > prev.count then Mode(Some(ColorAt(s, p)), count) else prev
  {
  }

  /** Pass 1: count the opaque pixels, fill the histogram and track the most frequent colour. */
  method BuildHistogram(data: array<byte>)
    returns (colorMap: map<Color, nat>, opaquePixels: nat, mainColor: Option<Color>, maxCount: nat)
    requires data.Length % 4 == 0
    ensures opaquePixels == OpaqueCount(data[..], data.Length / 4)
    ensures forall c :: Lookup(colorMap, c) == ColorCount(data[..], data.Length / 4, c)
    ensures Mode(mainColor, maxCount) == Dominant(data[..], data.Length / 4)
    ensures mainColor.Some? <==> opaquePixels > 0
    ensures mainColor.Some? ==> Lookup(colorMap, mainColor.value) == maxCount
    ensures forall c :: Lookup(colorMap, c) <= maxCount
  {
    ghost var s := data[..];
    ghost var n := data.Length / 4;
    colorMap, opaquePixels, mainColor, maxCount := map[], 0, None, 0;
    var i := 0;
    ghost var p := 0;
    while i < data.Length
      invariant i == 4 * p && p <= n
      invariant opaquePixels == OpaqueCount(s, p)
      invariant forall c :: Lookup(colorMap, c) == ColorCount(s, p, c)
      invariant Mode(mainColor, maxCount) == Dominant(s, p)
    {
      var a := data[i + 3];
      assert a == s[4 * p + 3];
      if a > AlphaThreshold {
        opaquePixels := opaquePixels + 1;
        var key := Color(data[i], data[i + 1], data[i + 2]);
        assert key == ColorAt(s, p);
        var count := Lookup(colorMap, key) + 1;
        HistogramAdd(s, p, colorMap, key, colorMap[key := count]);
        OpaqueStep(s, p, Mode(mainColor, maxCount), count);
        colorMap := colorMap[key := count];
        if count > maxCount {
          maxCount := count;
          mainColor := Some(key);
        }
      } else {
        TransparentStep(s, p);
      }
      i, p := i + 4, p + 1;
    }
    DominantIsMax(s, n);
  }

  /** Pass 2: count the opaque pixels within distance 30 of `main`. */
  method CountSimilar(data: array<byte>, main: Color) returns (similarPixels: nat)
    requires data.Length % 4 == 0
    ensures similarPixels == SimilarCount(data[..], data.Length / 4, main)
  {
    ghost var s := data[..];
    ghost var n := data.Length / 4;
    similarPixels := 0;
    var i := 0;
    ghost var p := 0;
    while i < data.Length
      invariant i == 4 * p && p <= n
      invariant similarPixels == SimilarCount(s, p, main)
    {
      var a := data[i + 3];
      if a > AlphaThreshold {
        var r, g, b := data[i], data[i + 1], data[i + 2];
        assert Color(r, g, b) == ColorAt(s, p);
        var distance2 := (r - main.r) * (r - main.r) + (g - main.g) * (g - main.g) + (b - main.b) * (b - main.b);
        if distance2 < ColorThreshold * ColorThreshold {
          similarPixels := similarPixels + 1;
        }
      }
      i, p := i + 4, p + 1;
    }
  }

  /**
   * The classifier on a decoded RGBA buffer of `width * height` pixels:
   * the alpha gate, the two passes, the two ratio gates, the luma test and
   * the hexadecimal rendering.
   */
  method AnalyzePixels(channels: int, data: array<byte>, width: nat, height: nat)
    returns (result: AnalysisResult)
    requires data.Length == 4 * (width * height)
    ensures result == Analyze(channels, data[..], width, height)
  {
    if channels != RequiredChannels {
      return NotSimple;
    }
    var colorMap, opaquePixels, mainColor, maxCount := BuildHistogram(data);
    if opaquePixels == 0 {
      return NotSimple;
    }
    var main := mainColor.value;
    var similarPixels := CountSimilar(data, main);
    var totalPixels := width * height;
    var isPureColorIcon := IsPureColorIcon(similarPixels, opaquePixels, totalPixels);
    var isDark := IsDark(main);
    var hexColor := HexColor(main);
    if !isPureColorIcon {
      return NotSimple;
    }
    return AnalysisResult(true, Some(hexColor), isDark, true);
  }

  // ---------------------------------------------------------------------
  // Properties of the verdict
  // ---------------------------------------------------------------------

  lemma {:induction false} OpaqueCountAll(s: seq<byte>, n: nat)
    requires 4 * n <= |s|
    requires forall p :: 0 <= p < n ==> IsOpaque(s, p)
    ensures OpaqueCount(s, n) == n
  {
    if n > 0 {
      OpaqueCountAll(s, n - 1);
    }
  }

  lemma {:induction false} OpaqueCountNone(s: seq<byte>, n: nat)
    requires 4 * n <= |s|
    requires forall p :: 0 <= p < n ==> !IsOpaque(s, p)
    ensures OpaqueCount(s, n) == 0
  {
    if n > 0 {
      OpaqueCountNone(s, n - 1);
    }
  }

  /** A buffer without one opaque pixel is never a simple icon. */
  lemma TransparentNotSimple(channels: int, s: seq<byte>, width: nat, height: nat)
    requires |s| == 4 * (width * height)
    requires forall p :: 0 <= p < width * height ==> !IsOpaque(s, p)
    ensures Analyze(channels, s, width, height) == NotSimple
  {
    assert |s| / 4 == width * height;
    OpaqueCountNone(s, width * height);
  }

  /**
   * A buffer whose every pixel is opaque is never a simple icon, however
   * uniform its colour: the transparency gate fails.
   */
  lemma OpaqueNotSimple(channels: int, s: seq<byte>, width: nat, height: nat)
    requires |s| == 4 * (width * height)
    requires forall p :: 0 <= p < width * height ==> IsOpaque(s, p)
    ensures Analyze(channels, s, width, height) == NotSimple
  {
    var n := width * height;
    assert |s| / 4 == n;
    OpaqueCountAll(s, n);
    assert forall similarPixels: nat :: !IsPureColorIcon(similarPixels, n, n);
  }

  /**
   * A simple verdict describes the dominant colour: it exists, no colour is
   * more frequent, it is rendered as `#rrggbb` and reads back as itself,
   * `isDark` is its luma test, and it passes both ratio gates.
   */
  lemma SimpleDescribesDominant(channels: int, s: seq<byte>, width: nat, height: nat)
    requires |s| == 4 * (width * height)
    requires Analyze(channels, s, width, height).isSimpleIcon
    ensures Dominant(s, width * height).color.Some?
    ensures var main := Dominant(s, width * height).color.value;
            var r := Analyze(channels, s, width, height);
            && channels == RequiredChannels
            && (forall c :: ColorCount(s, width * height, c) <= ColorCount(s, width * height, main))
            && r.mainColor == Some(HexColor(main))
            && IsHexColorString(r.mainColor.value)
            && ParseHexColor(r.mainColor.value) == Some(main)
            && r.isDark == IsDark(main)
            && 100 * SimilarCount(s, width * height, main) > 85 * OpaqueCount(s, width * height)
            && 10 * OpaqueCount(s, width * height) < 9 * (width * height)
  {
    var n := width * height;
    assert |s| / 4 == n;
    var r := Analyze(channels, s, width, height);
    assert channels == RequiredChannels && OpaqueCount(s, n) > 0;
    var main := Dominant(s, n).color.value;
    assert IsPureColorIcon(SimilarCount(s, n, main), OpaqueCount(s, n), n);
    assert r == AnalysisResult(true, Some(HexColor(main)), IsDark(main), true);
    DominantIsMax(s, n);
    HexColorShape(main);
    HexColorRoundTrip(main);
  }

  /** Conversely, an RGBA buffer with an opaque pixel that passes both gates is a simple icon. */
  lemma GatesMakeSimple(s: seq<byte>, width: nat, height: nat)
    requires |s| == 4 * (width * height)
    requires OpaqueCount(s, width * height) > 0
    requires var main := Dominant(s, width * height).color.value;
             IsPureColorIcon(SimilarCount(s, width * height, main), OpaqueCount(s, width * height), width * height)
    ensures Analyze(RequiredChannels, s, width, height).isSimpleIcon
  {
    assert |s| / 4 == width * height;
  }

  // ---------------------------------------------------------------------
  // The integer forms agree with the real-number reading of the tests
  // ---------------------------------------------------------------------

  lemma SquareBelow(d: real, t: real)
    requires d >= 0.0 && t > 0.0
    ensures d < t <==> d * d < t * t
  {
    if d < t {
      assert (t - d) * d >= 0.0;
      assert (t - d) * t > 0.0;
    } else {
      assert (d - t) * d >= 0.0;
      assert (d - t) * t >= 0.0;
    }
  }

  /** `Math.sqrt(d2) < 30` exactly when `d2 < 900`. */
  lemma DistanceGateExact(d2: nat, distance: real)
    requires distance >= 0.0 && distance * distance == d2 as real
    ensures distance < ColorThreshold as real <==> d2 < ColorThreshold * ColorThreshold
  {
    SquareBelow(distance, ColorThreshold as real);
  }

  lemma RatioAbove(x: real, y: real, k: real)
    requires y > 0.0
    ensures x / y > k <==> x > k * y
  {
    var q := x / y;
    assert q * y == x;
    if q > k {
      assert (q - k) * y > 0.0;
    } else {
      assert (k - q) * y >= 0.0;
    }
  }

  /** `similarPixels / opaquePixels > 0.85` exactly when `100 similarPixels > 85 opaquePixels`. */
  lemma SimilarityGateExact(similarPixels: nat, opaquePixels: nat)
    requires opaquePixels > 0
    ensures (similarPixels as real) / (opaquePixels as real) > 0.85 <==> 100 * similarPixels > 85 * opaquePixels
  {
    RatioAbove(similarPixels as real, opaquePixels as real, 0.85);
  }

  /** `(totalPixels - opaquePixels) / totalPixels > 0.1` exactly when `10 (totalPixels - opaquePixels) > totalPixels`. */
  lemma TransparencyGateExact(opaquePixels: nat, totalPixels: nat)
    requires 0 < totalPixels
    ensures ((totalPixels - opaquePixels) as real) / (totalPixels as real) > 0.1
            <==> 10 * (totalPixels - opaquePixels) > totalPixels
  {
    RatioAbove((totalPixels - opaquePixels) as real, totalPixels as real, 0.1);
  }

  /** `(0.299 r + 0.587 g + 0.114 b) / 255 < 0.5` exactly when the integer luma test holds. */
  lemma LuminanceGateExact(c: Color)
    ensures (0.299 * (c.r as real) + 0.587 * (c.g as real) + 0.114 * (c.b as real)) / 255.0 < 0.5 <==> IsDark(c)
  {
  }

  /** Pure red is dark (luma 0.299); white is light. */
  lemma LumaExamples()
    ensures IsDark(Color(255, 0, 0))
    ensures !IsDark(Color(255, 255, 255))
    ensures IsDark(Color(0, 0, 0))
  {
  }

  // ---------------------------------------------------------------------
  // Worked examples
  // ---------------------------------------------------------------------

  /** One transparent pixel followed by one opaque pure red pixel. */
  const HalfRedPixels: seq<byte> := [0, 0, 0, 0, 255, 0, 0, 255]

  lemma HalfRedOpaqueCount()
    ensures OpaqueCount(HalfRedPixels, 2) == 1
  {
    assert !IsOpaque(HalfRedPixels, 0) && IsOpaque(HalfRedPixels, 1);
    assert OpaqueCount(HalfRedPixels, 1) == 0;
  }

  lemma HalfRedDominant()
    ensures Dominant(HalfRedPixels, 2) == Mode(Some(Color(255, 0, 0)), 1)
  {
    TransparentStep(HalfRedPixels, 0);
    assert IsOpaque(HalfRedPixels, 1) && ColorAt(HalfRedPixels, 1) == Color(255, 0, 0);
    assert ColorCount(HalfRedPixels, 1, Color(255, 0, 0)) == 0;
    OpaqueStep(HalfRedPixels, 1, Mode(None, 0), 1);
  }

  lemma HalfRedSimilarCount()
    ensures SimilarCount(HalfRedPixels, 2, Color(255, 0, 0)) == 1
  {
    assert !IsOpaque(HalfRedPixels, 0) && IsOpaque(HalfRedPixels, 1);
    assert SimilarCount(HalfRedPixels, 1, Color(255, 0, 0)) == 0;
    assert IsSimilar(ColorAt(HalfRedPixels, 1), Color(255, 0, 0)) by {
      assert ColorAt(HalfRedPixels, 1) == Color(255, 0, 0);
      assert Dist2(Color(255, 0, 0), Color(255, 0, 0)) == 0;
    }
  }

  /** That buffer, two pixels wide and one high, is a simple, dark icon of colour `#ff0000`. */
  lemma HalfTransparentRedExample()
    ensures Analyze(RequiredChannels, HalfRedPixels, 2, 1) == AnalysisResult(true, Some("#ff0000"), true, true)
  {
    HalfRedOpaqueCount();
    HalfRedDominant();
    HalfRedSimilarCount();
    RedHexColor();
    assert IsPureColorIcon(1, 1, 2);
  }

  /** Four opaque pixels coloured A, B, B, A, with A = (10,20,30) and B = (40,50,60). */
  const TiedPixels: seq<byte> := [10, 20, 30, 255, 40, 50, 60, 255, 40, 50, 60, 255, 10, 20, 30, 255]

  /**
   * Both colours of `TiedPixels` end with two pixels, and B wins because it
   * reaches two first (at the third pixel), although A was seen first.
   */
  lemma TieBreakExample()
    ensures ColorCount(TiedPixels, 4, Color(10, 20, 30)) == 2
    ensures ColorCount(TiedPixels, 4, Color(40, 50, 60)) == 2
    ensures Dominant(TiedPixels, 2) == Mode(Some(Color(10, 20, 30)), 1)
    ensures Dominant(TiedPixels, 4) == Mode(Some(Color(40, 50, 60)), 2)
  {
    var s := TiedPixels;
    var colorA, colorB := Color(10, 20, 30), Color(40, 50, 60);
    assert IsOpaque(s, 0) && ColorAt(s, 0) == colorA;
    assert IsOpaque(s, 1) && ColorAt(s, 1) == colorB;
    assert IsOpaque(s, 2) && ColorAt(s, 2) == colorB;
    assert IsOpaque(s, 3) && ColorAt(s, 3) == colorA;
    assert ColorCount(s, 1, colorA) == 1;
    OpaqueStep(s, 0, Mode(None, 0), 1);
    assert ColorCount(s, 2, colorB) == 1;
    OpaqueStep(s, 1, Mode(Some(colorA), 1), 1);
    assert ColorCount(s, 3, colorB) == 2;
    OpaqueStep(s, 2, Mode(Some(colorA), 1), 2);
    assert ColorCount(s, 4, colorA) == 2;
    OpaqueStep(s, 3, Mode(Some(colorB), 2), 2);
  }
}
