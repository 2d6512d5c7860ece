/**
 * Values shared by the whole pipeline: BGR pixels, images as h-by-w grids,
 * `(x, y, w, h)` boxes, NumPy's slice windows `img[y:y+h, x:x+w]`, OCR
 * records, and the foreign image library (OpenCV, PIL, Tesseract) as a
 * bundle of uninterpreted functions.
 */
module Imaging {
  import opened Wrappers

  type Byte = x: int | 0 <= x < 256

  /** One pixel in OpenCV's channel order: blue, green, red. */
  datatype Pixel = Pixel(b: Byte, g: Byte, r: Byte)

  const Black: Pixel := Pixel(0, 0, 0)

  function Channel(p: Pixel, c: nat): Byte
    requires c < 3
  {
    if c == 0 then p.b else if c == 1 then p.g else p.r
  }

  function WithChannel(p: Pixel, c: nat, v: Byte): (q: Pixel)
    requires c < 3
    ensures Channel(q, c) == v
    ensures forall d :: 0 <= d < 3 && d != c ==> Channel(q, d) == Channel(p, d)
  {
    if c == 0 then p.(b := v) else if c == 1 then p.(g := v) else p.(r := v)
  }

  /** An `h`-by-`w` image, row-major: a NumPy array of shape (h, w, 3) and dtype uint8. */
  datatype Image = Image(h: nat, w: nat, px: seq<seq<Pixel>>) {
    predicate Valid()
    {
      |px| == h && forall r :: 0 <= r < h ==> |px[r]| == w
    }
  }

  predicate SameShape(a: Image, b: Image)
  {
    a.h == b.h && a.w == b.w
  }

  /** An image without pixels, as a slice that selects nothing is. */
  predicate Empty(img: Image)
  {
    img.h == 0 || img.w == 0
  }

  /** Two well-formed images of one shape that agree on every pixel are equal. */
  lemma ImageEquality(a: Image, b: Image)
    requires a.Valid() && b.Valid() && SameShape(a, b)
    requires forall i, j :: 0 <= i < a.h && 0 <= j < a.w ==> a.px[i][j] == b.px[i][j]
    ensures a == b
  {
    forall i | 0 <= i < a.h
      ensures a.px[i] == b.px[i]
    {
      assert |a.px[i]| == |b.px[i]|;
    }
  }

  /** An image every pixel of which is `p` (`np.zeros` for `p == Black`). */
  function Filled(h: nat, w: nat, p: Pixel): (img: Image)
    ensures img.Valid() && img.h == h && img.w == w
    ensures forall i, j :: 0 <= i < h && 0 <= j < w ==> img.px[i][j] == p
  {
    Image(h, w, seq(h, _ => seq(w, _ => p)))
  }

  /** A region `(x, y, w, h)` as detectors and the user produce it. */
  datatype Box = Box(x: int, y: int, w: int, h: int)

  /** The box lies inside an `imgW`-by-`imgH` image. */
  predicate InBounds(b: Box, imgW: int, imgH: int)
  {
    0 <= b.x && 0 <= b.y && b.w >= 0 && b.h >= 0 && b.x + b.w <= imgW && b.y + b.h <= imgH
  }

  function Min(a: int, b: int): int
  {
    if a <= b then a else b
  }

  function Max(a: int, b: int): int
  {
    if a >= b then a else b
  }

  /** A rectangle of actual pixels: rows `top .. top+rows-1`, columns `left .. left+cols-1`. */
  datatype Window = Window(top: nat, left: nat, rows: nat, cols: nat)

  predicate Fits(win: Window, img: Image)
  {
    win.top + win.rows <= img.h && win.left + win.cols <= img.w
  }

  predicate Inside(win: Window, i: int, j: int)
  {
    win.top <= i < win.top + win.rows && win.left <= j < win.left + win.cols
  }

  /** Python's normalisation of one slice bound against a length `n` (step 1): negatives count from the end. */
  function PyIndex(i: int, n: nat): (k: nat)
    ensures k <= n
    ensures 0 <= i <= n ==> k == i
    ensures i > n ==> k == n
    ensures 0 - n <= i < 0 ==> k == i + n
    ensures i < 0 - n ==> k == 0
  {
    if i < 0 then (if i + n < 0 then 0 else i + n) else if i > n then n else i
  }

  /** The elements `s[start:stop]` selects from a sequence of length `n`, as (first index, count). */
  function PySpan(start: int, stop: int, n: nat): (r: (nat, nat))
    ensures r.0 + r.1 <= n
  {
    var lo := PyIndex(start, n);
    var hi := PyIndex(stop, n);
    (lo, if hi < lo then 0 else hi - lo)
  }

  /** The pixels `img[y:y+h, x:x+w]` selects from an `imgH`-by-`imgW` image. */
  function SliceWindow(imgH: nat, imgW: nat, b: Box): (win: Window)
    ensures win.top + win.rows <= imgH && win.left + win.cols <= imgW
    ensures InBounds(b, imgW, imgH) ==> win == Window(b.y, b.x, b.h, b.w)
  {
    var rows := PySpan(b.y, b.y + b.h, imgH);
    var cols := PySpan(b.x, b.x + b.w, imgW);
    Window(rows.0, cols.0, rows.1, cols.1)
  }

  /** `img[top:top+rows, left:left+cols]` once the window is normalised: a copy of those pixels. */
  function Crop(img: Image, win: Window): (r: Image)
    requires img.Valid() && Fits(win, img)
    ensures r.Valid() && r.h == win.rows && r.w == win.cols
    ensures forall i, j :: 0 <= i < win.rows && 0 <= j < win.cols ==> r.px[i][j] == img.px[win.top + i][win.left + j]
  {
    Image(win.rows, win.cols,
      seq(win.rows, i requires 0 <= i < win.rows =>
        seq(win.cols, j requires 0 <= j < win.cols => img.px[win.top + i][win.left + j])))
  }

  /** `img[window] = region`: the window's pixels come from `region`, every other pixel is kept. */
  function Paste(img: Image, win: Window, region: Image): (r: Image)
    requires img.Valid() && region.Valid() && Fits(win, img)
    requires region.h == win.rows && region.w == win.cols
    ensures r.Valid() && SameShape(r, img)
    ensures forall i, j :: 0 <= i < img.h && 0 <= j < img.w ==>
      r.px[i][j] == if Inside(win, i, j) then region.px[i - win.top][j - win.left] else img.px[i][j]
  {
    Image(img.h, img.w,
      seq(img.h, i requires 0 <= i < img.h =>
        seq(img.w, j requires 0 <= j < img.w =>
          if Inside(win, i, j) then region.px[i - win.top][j - win.left] else img.px[i][j])))
  }

  /** Writing a window back with its own pixels changes nothing. */
  lemma PasteOwnCrop(img: Image, win: Window)
    requires img.Valid() && Fits(win, img)
    ensures Paste(img, win, Crop(img, win)) == img
  {
    ImageEquality(Paste(img, win, Crop(img, win)), img);
  }

  /** Reading back a window just written yields what was written. */
  lemma CropOfPaste(img: Image, win: Window, region: Image)
    requires img.Valid() && region.Valid() && Fits(win, img)
    requires region.h == win.rows && region.w == win.cols
    ensures Crop(Paste(img, win, region), win) == region
  {
    ImageEquality(Crop(Paste(img, win, region), win), region);
  }

  /** `int(data['conf'][i])`: either that integer, or a value on which `int()` raises. */
  datatype Conf = ConfInt(value: int) | ConfNotInt

  /** Entry `i` of `pytesseract.image_to_data(..., output_type=DICT)`: the parallel lists read at one index. */
  datatype OcrEntry = OcrEntry(text: string, conf: Conf, left: int, top: int, width: int, height: int)

  /** The box `(left, top, width, height)` of an OCR entry. */
  function EntryBox(e: OcrEntry): Box
  {
    Box(e.left, e.top, e.width, e.height)
  }

  /** The three ways the source calls Tesseract; each preprocesses and configures differently. */
  datatype OcrCall =
    | GrayDefault          // DetectionEngine.detect_text: grayscale image, default page segmentation
    | PreprocessedPsm6     // TextDetector.detect_specific_word: `_preprocess_image`, then '--psm 6'
    | PreprocessedDefault  // TextDetector.detect_all_text and get_detected_text

  /** The three Haar cascades DetectionEngine loads, each with its own parameters. */
  datatype Cascade = FrontalFace | EyeCascade | FullBody

  datatype Interpolation = Linear | Nearest

  /**
   * The foreign image library. `None` from `ocr` is Tesseract raising; the
   * other kernels are total.
   */
  datatype Library = Library(
    gaussianBlur: (Image, int) -> Image,                    // cv2.GaussianBlur(region, (k, k), 0)
    resize: (Image, nat, nat, Interpolation) -> Image,      // cv2.resize(region, (w, h), interpolation)
    frostedGlass: Image -> Image,                           // PIL blur, brightness x1.1, edge enhance
    oilPaint: Image -> Image,                               // cv2.xphoto.oilPainting or two bilateral passes
    blend: (Image, Image, int) -> Image,                    // apply_opacity(original, processed, opacity)
    cascade: (Cascade, Image) -> seq<Box>,                  // CascadeClassifier.detectMultiScale
    plateContours: Image -> seq<Box>,                       // boundingRect of each contour of the Canny edges
    textContours: Image -> seq<Box>,                        // boundingRect of each contour of the threshold image
    ocr: (OcrCall, Image) -> Option<seq<OcrEntry>>          // pytesseract.image_to_data
  )
  {
    /**
     * What the source relies on: the region kernels keep the shape of their
     * input, resize yields the shape it is asked for, and `cv2.boundingRect`
     * never reports a zero height.
     */
    ghost predicate Valid()
    {
      && (forall g: Image, k: int :: g.Valid() ==> gaussianBlur(g, k).Valid() && SameShape(gaussianBlur(g, k), g))
      && (forall g: Image, w: nat, h: nat, m: Interpolation :: g.Valid() ==> resize(g, w, h, m).Valid() && resize(g, w, h, m).w == w && resize(g, w, h, m).h == h)
      && (forall g: Image {:trigger frostedGlass(g)} :: g.Valid() ==> frostedGlass(g).Valid() && SameShape(frostedGlass(g), g))
      && (forall g: Image {:trigger oilPaint(g)} :: g.Valid() ==> oilPaint(g).Valid() && SameShape(oilPaint(g), g))
      && (forall o: Image, p: Image, a: int :: o.Valid() && p.Valid() && SameShape(o, p) ==> blend(o, p, a).Valid() && SameShape(blend(o, p, a), p))
      && (forall g: Image, i :: 0 <= i < |plateContours(g)| ==> plateContours(g)[i].h > 0)
    }
  }

  /**
   * What a detector hands back. `ndarray` marks a NumPy array (the contour
   * detectors always return one, `detectMultiScale` does when it found
   * something); otherwise it is a tuple or a list.
   */
  datatype Regions = Regions(boxes: seq<Box>, ndarray: bool)

  /**
   * Python's `bool(regions)`: `None` when the truth test raises, which is the
   * case for a non-empty array of boxes (its truth value is ambiguous).
   */
  function Truth(r: Regions): (t: Option<bool>)
    ensures t == None <==> r.ndarray && |r.boxes| > 0
    ensures t.Some? ==> (t.value <==> |r.boxes| > 0)
  {
    if r.ndarray && |r.boxes| > 0 then None else Some(|r.boxes| > 0)
  }

  /** The boxes of `s` that satisfy `keep`, in their original order. */
  function FilterBoxes(s: seq<Box>, keep: Box -> bool): (r: seq<Box>)
    ensures |r| <= |s|
    ensures forall b :: b in r <==> b in s && keep(b)
  {
    if |s| == 0 then [] else
      if keep(s[0]) then [s[0]] + FilterBoxes(s[1..], keep) else FilterBoxes(s[1..], keep)
  }

  lemma {:induction false} FilterBoxesAppend(s: seq<Box>, b: Box, keep: Box -> bool)
    ensures FilterBoxes(s + [b], keep) == FilterBoxes(s, keep) + (if keep(b) then [b] else [])
  {
    if |s| == 0 {
      assert s + [b] == [b];
    } else {
      assert (s + [b])[1..] == s[1..] + [b];
      FilterBoxesAppend(s[1..], b, keep);
    }
  }
}
