/**
 * The pixel heuristic of the upload view: a single scan over the RGBA bytes
 * of a decoded image that counts the pixels whose red, green and blue
 * channels disagree by more than a fixed margin, followed by a fixed
 * threshold on that count that picks one of two canned messages.
 */
module PixelHeuristic {

  /** One channel byte of a decoded image (the browser hands out a clamped 8-bit array). */
  type Byte = x: int | 0 <= x < 256

  /** Bytes per pixel in the decoded buffer: red, green, blue, alpha. */
  const BYTES_PER_PIXEL: int := 4
  /** Two channels whose difference is strictly above this mark make a pixel abnormal. */
  const CHANNEL_MARGIN: int := 50
  /** More than this many abnormal pixels give the positive message. */
  const ABNORMAL_LIMIT: int := 1000

  /** The two messages the heuristic can produce. */
  datatype Verdict = Unlikely | Detected {
    /** The exact text shown to the user for this verdict. */
    function Text(): (text: string)
    {
      match this
      case Unlikely => "Brain Cancer Unlikely"
      case Detected =>
        "Brain Cancer Detected, Medulloblastoma- Survival rate 70-80 percent, Symptoms- consistent headaches, nystagmus(side-to-side eye movement), lethargy(lack of energy), confusion, double vision, nausea, vomiting, Treatments- Reach out to your local neurologist- options: radiation therapy, stem cell transplants, and chemotherapy"
    }
  }

  /** The two messages differ, so holding the verdict is as good as holding its message. */
  lemma TextsDiffer()
    ensures Unlikely.Text() != Detected.Text()
  {
  }

  /** The drawing surface the image is rendered onto before it is read back. */
  datatype Canvas =
    | NoContext                                            // no 2D context could be obtained
    | Rendered(width: nat, height: nat, data: array<Byte>) // the image data read back from it

  /** What a rendered canvas hands back: four bytes for each of its width * height pixels. */
  predicate WellFormed(c: Canvas)
  {
    c.Rendered? ==> c.data.Length == BYTES_PER_PIXEL * (c.width * c.height)
  }

  function Abs(x: int): (a: nat)
  {
    if x < 0 then -x else x
  }

  /** A pixel is abnormal when some pair of its colour channels differs by more than the margin. */
  predicate IsAbnormal(red: Byte, green: Byte, blue: Byte)
  {
    Abs(red - green) > CHANNEL_MARGIN ||
    Abs(green - blue) > CHANNEL_MARGIN ||
    Abs(blue - red) > CHANNEL_MARGIN
  }

  /** Pixel number p of the buffer s (bytes 4p to 4p+3) is abnormal; its alpha byte plays no part. */
  predicate PixelAbnormal(s: seq<Byte>, p: nat)
    requires BYTES_PER_PIXEL * p + BYTES_PER_PIXEL <= |s|
  {
    var k := BYTES_PER_PIXEL * p;
    IsAbnormal(s[k], s[k + 1], s[k + 2])
  }

  /**
   * The number of abnormal pixels in a buffer made of whole pixels, counted
   * from the front: the count of all pixels but the last, plus one if the
   * last is abnormal.
   */
  function CountAbnormal(s: seq<Byte>): (n: nat)
    requires |s| % BYTES_PER_PIXEL == 0
    ensures n <= |s| / BYTES_PER_PIXEL
    decreases |s|
  {
    if |s| == 0 then 0
    else
      var k := |s| - BYTES_PER_PIXEL;
      CountAbnormal(s[..k]) + (if IsAbnormal(s[k], s[k + 1], s[k + 2]) then 1 else 0)
  }

  /** The indices of the abnormal pixels of s: an independent account of what is counted. */
  function AbnormalPixels(s: seq<Byte>): (pixels: set<nat>)
    requires |s| % BYTES_PER_PIXEL == 0
  {
    set p: nat | p < |s| / BYTES_PER_PIXEL && PixelAbnormal(s, p)
  }

  /** The verdict the threshold gives for a buffer of whole pixels. */
  function VerdictOf(s: seq<Byte>): (v: Verdict)
    requires |s| % BYTES_PER_PIXEL == 0
  {
    if CountAbnormal(s) > ABNORMAL_LIMIT then Detected else Unlikely
  }

  /**
   * How a call of the analysis ends: it returns a verdict, or reading the
   * image data back throws (the canvas API refuses a read of zero width or
   * zero height), so no verdict is returned at all.
   */
  datatype Completion = Returns(verdict: Verdict) | Throws

  /** A rendered canvas of zero area: reading its image data back throws. */
  predicate ZeroArea(c: Canvas)
  {
    c.Rendered? && (c.width == 0 || c.height == 0)
  }

  /** How the analysis ends for a canvas: the negative verdict when there is no context. */
  function Expected(c: Canvas): (r: Completion)
    requires WellFormed(c)
    reads if c.Rendered? then {c.data} else {}
  {
    match c
    case NoContext => Returns(Unlikely)
    case Rendered(width, height, data) =>
      if width == 0 || height == 0 then Throws else Returns(VerdictOf(data[..]))
  }

  /**
   * The counter loop: walk the buffer four bytes at a time and count the
   * abnormal pixels; the count never exceeds the number of pixels.
   */
  method CountAbnormalPixels(pixels: array<Byte>) returns (count: nat)
    requires pixels.Length % BYTES_PER_PIXEL == 0
    ensures count == CountAbnormal(pixels[..])
    ensures count <= pixels.Length / BYTES_PER_PIXEL
  {
    count := 0;
    var i := 0;
    while i < pixels.Length
      invariant 0 <= i <= pixels.Length
      invariant i % BYTES_PER_PIXEL == 0
      invariant count == CountAbnormal(pixels[..i])
      invariant count <= i / BYTES_PER_PIXEL
    {
      var red: int, green: int, blue: int := pixels[i], pixels[i + 1], pixels[i + 2];
      CountPrefixStep(pixels[..], i);
      if Abs(red - green) > CHANNEL_MARGIN || Abs(green - blue) > CHANNEL_MARGIN || Abs(blue - red) > CHANNEL_MARGIN {
        count := count + 1;
      }
      i := i + BYTES_PER_PIXEL;
    }
    assert pixels[..i] == pixels[..];
  }

  /**
   * The whole analysis: without a drawing context no buffer exists and the
   * negative verdict is returned at once; a canvas of zero area throws when
   * its image data is read back; otherwise the abnormal pixels are counted
   * and the count is compared with the limit.
   */
  method Analyze(canvas: Canvas) returns (r: Completion)
    requires WellFormed(canvas)
    ensures r == Expected(canvas)
    ensures canvas.NoContext? ==> r == Returns(Unlikely)
    ensures r.Throws? <==> ZeroArea(canvas)
    ensures r == Returns(Detected) <==>
              canvas.Rendered? && !ZeroArea(canvas) && CountAbnormal(canvas.data[..]) > ABNORMAL_LIMIT
  {
    if canvas.NoContext? {
      return Returns(Unlikely);
    }
    if canvas.width == 0 || canvas.height == 0 {
      return Throws;
    }
    var abnormalCount := CountAbnormalPixels(canvas.data);
    if abnormalCount > ABNORMAL_LIMIT {
      return Returns(Detected);
    }
    return Returns(Unlikely);
  }

  // ---------------------------------------------------------------------
  // Properties of the count

  /** Appending one pixel adds one to the count exactly when that pixel is abnormal. */
  lemma CountAppendPixel(s: seq<Byte>, px: seq<Byte>)
    requires |s| % BYTES_PER_PIXEL == 0 && |px| == BYTES_PER_PIXEL
    ensures |s + px| % BYTES_PER_PIXEL == 0
    ensures CountAbnormal(s + px) ==
              CountAbnormal(s) + (if IsAbnormal(px[0], px[1], px[2]) then 1 else 0)
  {
    assert (s + px)[..|s|] == s;
  }

  /** Scanning one more pixel of a buffer adds one to the count of the prefix exactly when that pixel is abnormal. */
  lemma CountPrefixStep(s: seq<Byte>, i: nat)
    requires i % BYTES_PER_PIXEL == 0 && i + BYTES_PER_PIXEL <= |s|
    ensures CountAbnormal(s[..i + BYTES_PER_PIXEL]) ==
              CountAbnormal(s[..i]) + (if IsAbnormal(s[i], s[i + 1], s[i + 2]) then 1 else 0)
  {
    assert s[..i + BYTES_PER_PIXEL][..i] == s[..i];
  }

  /** Dropping the last pixel of a buffer removes at most that pixel's index from the abnormal set. */
  lemma AbnormalPixelsDropLast(s: seq<Byte>)
    requires |s| % BYTES_PER_PIXEL == 0 && |s| > 0
    ensures AbnormalPixels(s) ==
              AbnormalPixels(s[..|s| - BYTES_PER_PIXEL]) +
              (if PixelAbnormal(s, |s| / BYTES_PER_PIXEL - 1) then {|s| / BYTES_PER_PIXEL - 1} else {})
  {
    var t := s[..|s| - BYTES_PER_PIXEL];
    var last: nat := |s| / BYTES_PER_PIXEL - 1;
    assert |t| / BYTES_PER_PIXEL == last;
    forall p: nat | p < last
      ensures PixelAbnormal(t, p) == PixelAbnormal(s, p)
    {
      var k := BYTES_PER_PIXEL * p;
      assert t[k] == s[k] && t[k + 1] == s[k + 1] && t[k + 2] == s[k + 2];
    }
  }

  /** The counted pixels are exactly the abnormal ones: the count is the size of the set of their indices. */
  lemma {:induction false} CountIsCardinality(s: seq<Byte>)
    requires |s| % BYTES_PER_PIXEL == 0
    ensures CountAbnormal(s) == |AbnormalPixels(s)|
    decreases |s|
  {
    if |s| == 0 {
      assert AbnormalPixels(s) == {};
    } else {
      var t := s[..|s| - BYTES_PER_PIXEL];
      var last: nat := |s| / BYTES_PER_PIXEL - 1;
      CountIsCardinality(t);
      AbnormalPixelsDropLast(s);
      assert last !in AbnormalPixels(t);
    }
  }

  /** Pixel p has the same red, green and blue bytes in s and in t; the alpha bytes may differ. */
  predicate SameColour(s: seq<Byte>, t: seq<Byte>, p: nat)
    requires BYTES_PER_PIXEL * p + BYTES_PER_PIXEL <= |s| == |t|
  {
    var k := BYTES_PER_PIXEL * p;
    s[k] == t[k] && s[k + 1] == t[k + 1] && s[k + 2] == t[k + 2]
  }

  /** Two buffers that agree on every red, green and blue byte have the same count, whatever their alpha bytes. */
  lemma {:induction false} AlphaIgnored(s: seq<Byte>, t: seq<Byte>)
    requires |s| == |t| && |s| % BYTES_PER_PIXEL == 0
    requires forall p: nat :: p < |s| / BYTES_PER_PIXEL ==> SameColour(s, t, p)
    ensures CountAbnormal(s) == CountAbnormal(t)
    decreases |s|
  {
    if |s| != 0 {
      var k := |s| - BYTES_PER_PIXEL;
      var s', t' := s[..k], t[..k];
      assert SameColour(s, t, k / BYTES_PER_PIXEL);
      forall p: nat | p < k / BYTES_PER_PIXEL
        ensures SameColour(s', t', p)
      {
        assert SameColour(s, t, p);
      }
      AlphaIgnored(s', t');
    }
  }

  /** Pixel p of s is grey: its red, green and blue bytes are equal. */
  predicate IsGrey(s: seq<Byte>, p: nat)
    requires BYTES_PER_PIXEL * p + BYTES_PER_PIXEL <= |s|
  {
    var k := BYTES_PER_PIXEL * p;
    s[k] == s[k + 1] == s[k + 2]
  }

  /** A grey buffer (red = green = blue in every pixel) has no abnormal pixel, whatever its size. */
  lemma {:induction false} GreyCountsZero(s: seq<Byte>)
    requires |s| % BYTES_PER_PIXEL == 0
    requires forall p: nat :: p < |s| / BYTES_PER_PIXEL ==> IsGrey(s, p)
    ensures CountAbnormal(s) == 0
    ensures VerdictOf(s) == Unlikely
    decreases |s|
  {
    if |s| != 0 {
      var k := |s| - BYTES_PER_PIXEL;
      var s' := s[..k];
      assert IsGrey(s, k / BYTES_PER_PIXEL);
      forall p: nat | p < k / BYTES_PER_PIXEL
        ensures IsGrey(s', p)
      {
        assert IsGrey(s, p);
      }
      GreyCountsZero(s');
    }
  }

  /**
   * The empty buffer has no abnormal pixel and gives the negative verdict.
   * This is the threshold stage taken alone: `Analyze` never reaches it,
   * because a canvas with an empty buffer has zero area and throws first
   * (`EmptyCanvasThrows`).
   */
  lemma EmptyIsUnlikely()
    ensures CountAbnormal([]) == 0
    ensures VerdictOf([]) == Unlikely
  {
  }

  /** n copies of the pixel px, one after the other. */
  function Repeat(px: seq<Byte>, n: nat): (r: seq<Byte>)
    requires |px| == BYTES_PER_PIXEL
    ensures |r| == BYTES_PER_PIXEL * n
  {
    if n == 0 then [] else Repeat(px, n - 1) + px
  }

  /** Appending n copies of one pixel adds n to the count if it is abnormal, nothing otherwise. */
  lemma {:induction false} CountAppendRepeat(s: seq<Byte>, px: seq<Byte>, n: nat)
    requires |s| % BYTES_PER_PIXEL == 0 && |px| == BYTES_PER_PIXEL
    ensures |s + Repeat(px, n)| % BYTES_PER_PIXEL == 0
    ensures CountAbnormal(s + Repeat(px, n)) ==
              CountAbnormal(s) + (if IsAbnormal(px[0], px[1], px[2]) then n else 0)
  {
    if n > 0 {
      var u := s + Repeat(px, n - 1);
      CountAppendRepeat(s, px, n - 1);
      assert s + Repeat(px, n) == u + px;
      CountAppendPixel(u, px);
    } else {
      assert s + Repeat(px, n) == s;
    }
  }

  /** A pure red pixel (255, 0, 0) with the given alpha. */
  function Red(alpha: Byte): (px: seq<Byte>) { [255, 0, 0, alpha] }

  /** A grey pixel (g, g, g) with the given alpha. */
  function Grey(g: Byte, alpha: Byte): (px: seq<Byte>) { [g, g, g, alpha] }

  /**
   * An image of n red pixels followed by m grey ones has exactly n abnormal
   * pixels, and the threshold is strict: it is reported positive iff n > 1000,
   * so exactly 1000 red pixels still give the negative message.
   */
  lemma RedThenGrey(n: nat, m: nat, g: Byte, a: Byte, b: Byte)
    ensures |Repeat(Red(a), n) + Repeat(Grey(g, b), m)| % BYTES_PER_PIXEL == 0
    ensures CountAbnormal(Repeat(Red(a), n) + Repeat(Grey(g, b), m)) == n
    ensures VerdictOf(Repeat(Red(a), n) + Repeat(Grey(g, b), m)) == Detected <==> n > ABNORMAL_LIMIT
  {
    var red, grey := Red(a), Grey(g, b);
    assert IsAbnormal(red[0], red[1], red[2]);
    assert !IsAbnormal(grey[0], grey[1], grey[2]);
    CountAppendRepeat([], red, n);
    assert [] + Repeat(red, n) == Repeat(red, n);
    CountAppendRepeat(Repeat(red, n), grey, m);
  }

  /** A rendered canvas with an empty buffer has zero area, so reading it back throws. */
  lemma EmptyCanvasThrows(c: Canvas)
    requires WellFormed(c) && c.Rendered? && c.data.Length == 0
    ensures ZeroArea(c) && Expected(c) == Throws
  {
  }
}
