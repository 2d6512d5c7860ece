/**
 * The editing logic of `MainWindow`: which regions a press of "process"
 * works on, how each region's effect is written back into the working
 * image, the undo and redo buttons, the manual rectangles, and the state
 * that loading and resetting an image clear.
 *
 * The tk variables a run reads are the fields of `Controls`; the image
 * picker's answer and `cv2.imread` are parameters; the conversion of canvas
 * coordinates to image coordinates (a float scale) is the parameter
 * `toImage`.
 */
module Editor {
  import opened Wrappers
  import opened Imaging
  import opened ImageProcessor
  import opened Dispatch
  import TextDetector
  import BatchProcessor
  import Utils
  import Config

  /** The tk variables `process_image` and `apply_effect_to_region` read. */
  datatype Controls = Controls(mode: string, effect: string, blurStrength: int, pixelSize: int, opacity: int, targetWord: string)

  // --------------------------------------------------------- write-back

  /** The pixels `image[y:y+h, x:x+w]` addresses. */
  function Target(img: Image, b: Box): Window
  {
    SliceWindow(img.h, img.w, b)
  }

  /**
   * `apply_effect_to_region`: `None` when the effect raises on the box.
   * Otherwise the effect's new region, blended with the ORIGINAL image's
   * region when opacity is below 100, is written over the box of the
   * working image; every other pixel is kept, and an unknown effect changes
   * nothing.
   */
  function WriteBack(lib: Library, original: Image, processed: Image, b: Box, c: Controls): (r: Option<Image>)
    requires lib.Valid() && original.Valid() && processed.Valid() && SameShape(original, processed)
    ensures r.None? <==> EffectRaises(processed, b, ParseEffect(c.effect))
    ensures r.Some? ==> r.value.Valid() && SameShape(r.value, processed)
    ensures ParseEffect(c.effect) == OtherEffect ==> r == Some(processed)
    ensures r.Some? ==> forall i, j :: 0 <= i < processed.h && 0 <= j < processed.w && !Inside(Target(processed, b), i, j) ==>
      r.value.px[i][j] == processed.px[i][j]
  {
    var win := Target(processed, b);
    assert Region(original, b) == Crop(original, win);
    assert Region(processed, b) == Crop(processed, win);
    var k := ParseEffect(c.effect);
    if EffectRaises(processed, b, k) then None
    else
      var e := Effect(lib, processed, b, k, c.blurStrength, c.pixelSize);
      if e.None? then Some(processed)
      else
        var result := if c.opacity < 100 then ApplyOpacity(lib, Region(original, b), e.value, c.opacity) else e.value;
        Some(Paste(processed, win, result))
  }

  /**
   * Reading the box back after the write: the effect's region itself at
   * full opacity, its blend with the original's region below it.
   */
  lemma WrittenRegion(lib: Library, original: Image, processed: Image, b: Box, c: Controls)
    requires lib.Valid() && original.Valid() && processed.Valid() && SameShape(original, processed)
    requires ParseEffect(c.effect) != OtherEffect
    ensures var r := WriteBack(lib, original, processed, b, c);
      var e := Effect(lib, processed, b, ParseEffect(c.effect), c.blurStrength, c.pixelSize).value;
      r.Some? ==>
        Crop(r.value, Target(processed, b)) == if c.opacity < 100 then ApplyOpacity(lib, Region(original, b), e, c.opacity) else e
  {
    var e := Effect(lib, processed, b, ParseEffect(c.effect), c.blurStrength, c.pixelSize).value;
    var result := if c.opacity < 100 then ApplyOpacity(lib, Region(original, b), e, c.opacity) else e;
    CropOfPaste(processed, Target(processed, b), result);
  }

  /**
   * At full opacity the gradient fade writes the region back as it was: the
   * image does not change. On a box that selects no pixel it raises.
   */
  lemma GradientKeepsImage(lib: Library, original: Image, processed: Image, b: Box, c: Controls)
    requires lib.Valid() && original.Valid() && processed.Valid() && SameShape(original, processed)
    requires ParseEffect(c.effect) == Gradient && c.opacity >= 100
    ensures WriteBack(lib, original, processed, b, c) == if Empty(Region(processed, b)) then None else Some(processed)
  {
    PasteOwnCrop(processed, Target(processed, b));
  }

  /**
   * At full opacity the black bar blackens every pixel of the box that lies
   * in the image, whatever the opacity slider later does to other boxes.
   */
  lemma BlackBarBlackensBox(lib: Library, original: Image, processed: Image, b: Box, c: Controls)
    requires lib.Valid() && original.Valid() && processed.Valid() && SameShape(original, processed)
    requires ParseEffect(c.effect) == BlackBarEffect && c.opacity >= 100
    requires b.x >= 0 && b.y >= 0 && b.w >= 0 && b.h >= 0
    ensures var r := WriteBack(lib, original, processed, b, c);
      && r.Some?
      && forall i, j :: 0 <= i < processed.h && 0 <= j < processed.w && Inside(Target(processed, b), i, j) ==>
        r.value.px[i][j] == Black
  {
    BlackBarIsBlack(processed, b);
  }

  /**
   * A box left of the image, which a drag in the canvas margin gives, is
   * not clipped: its negative slice bounds count from the right edge, so
   * the effect reads and writes a strip at the far side of the image.
   */
  lemma LeftOfImageWraps(img: Image)
    requires img.Valid() && img.w == 100 && img.h == 100
    ensures Target(img, Box(-30, 0, 20, 20)) == Window(0, 70, 20, 20)
  {
  }

  /** The working image part-way through a run, and whether an effect has raised. */
  datatype Painting = Painting(image: Image, raised: bool)

  /**
   * The run of `apply_effect_to_region` over the first `n` boxes in turn,
   * inside the `try` of `process_image`: the first effect that raises ends
   * the run, and what earlier boxes wrote stays in the working image.
   */
  function Painted(lib: Library, original: Image, processed: Image, boxes: seq<Box>, n: nat, c: Controls): (r: Painting)
    requires lib.Valid() && original.Valid() && processed.Valid() && SameShape(original, processed)
    requires n <= |boxes|
    ensures r.image.Valid() && SameShape(r.image, processed)
    decreases n
  {
    if n == 0 then Painting(processed, false)
    else Step(lib, original, Painted(lib, original, processed, boxes, n - 1, c), boxes[n - 1], c)
  }

  /** One box of the run: nothing once an effect has raised, the write-back of the box otherwise. */
  function Step(lib: Library, original: Image, prev: Painting, b: Box, c: Controls): (r: Painting)
    requires lib.Valid() && original.Valid() && prev.image.Valid() && SameShape(original, prev.image)
    ensures r.image.Valid() && SameShape(r.image, prev.image)
    ensures prev.raised ==> r == prev
    ensures !prev.raised ==> (r.raised <==> EffectRaises(prev.image, b, ParseEffect(c.effect)))
  {
    if prev.raised then prev
    else
      match WriteBack(lib, original, prev.image, b, c)
      case None => Painting(prev.image, true)
      case Some(img) => Painting(img, false)
  }

  /** Once an effect has raised, the later boxes change nothing. */
  lemma {:induction false} RaiseEndsRun(lib: Library, original: Image, processed: Image, boxes: seq<Box>, k: nat, n: nat, c: Controls)
    requires lib.Valid() && original.Valid() && processed.Valid() && SameShape(original, processed)
    requires k <= n <= |boxes| && Painted(lib, original, processed, boxes, k, c).raised
    ensures Painted(lib, original, processed, boxes, n, c) == Painted(lib, original, processed, boxes, k, c)
    decreases n
  {
    if n > k {
      RaiseEndsRun(lib, original, processed, boxes, k, n - 1, c);
    }
  }

  /**
   * A run raises exactly when some box, reached with nothing raised before
   * it, selects no pixel for an effect that rejects that.
   */
  lemma RaisedIff(lib: Library, original: Image, processed: Image, boxes: seq<Box>, n: nat, c: Controls)
    requires lib.Valid() && original.Valid() && processed.Valid() && SameShape(original, processed)
    requires n <= |boxes|
    ensures Painted(lib, original, processed, boxes, n, c).raised <==>
      exists k :: 0 <= k < n && RaisedAt(lib, original, processed, boxes, k, c)
  {
    if Painted(lib, original, processed, boxes, n, c).raised {
      var k := RaisedHasWitness(lib, original, processed, boxes, n, c);
    }
    forall k | 0 <= k < n && RaisedAt(lib, original, processed, boxes, k, c)
      ensures Painted(lib, original, processed, boxes, n, c).raised
    {
      WitnessRaises(lib, original, processed, boxes, k, n, c);
    }
  }

  /** A run that raised names the box whose effect raised. */
  lemma {:induction false} RaisedHasWitness(lib: Library, original: Image, processed: Image, boxes: seq<Box>, n: nat, c: Controls)
      returns (k: nat)
    requires lib.Valid() && original.Valid() && processed.Valid() && SameShape(original, processed)
    requires n <= |boxes| && Painted(lib, original, processed, boxes, n, c).raised
    ensures k < n && RaisedAt(lib, original, processed, boxes, k, c)
    decreases n
  {
    var prev := Painted(lib, original, processed, boxes, n - 1, c);
    if prev.raised {
      k := RaisedHasWitness(lib, original, processed, boxes, n - 1, c);
    } else {
      k := n - 1;
    }
  }

  /** The box whose effect raised ends the run raised, whatever boxes follow. */
  lemma WitnessRaises(lib: Library, original: Image, processed: Image, boxes: seq<Box>, k: nat, n: nat, c: Controls)
    requires lib.Valid() && original.Valid() && processed.Valid() && SameShape(original, processed)
    requires k < n <= |boxes| && RaisedAt(lib, original, processed, boxes, k, c)
    ensures Painted(lib, original, processed, boxes, n, c).raised
  {
    RaisedAtNext(lib, original, processed, boxes, k, c);
    RaiseEndsRun(lib, original, processed, boxes, k + 1, n, c);
  }

  /** The step on the box whose effect raises leaves the run raised. */
  lemma RaisedAtNext(lib: Library, original: Image, processed: Image, boxes: seq<Box>, k: nat, c: Controls)
    requires lib.Valid() && original.Valid() && processed.Valid() && SameShape(original, processed)
    requires k < |boxes| && RaisedAt(lib, original, processed, boxes, k, c)
    ensures Painted(lib, original, processed, boxes, k + 1, c).raised
  {
  }

  /** The effect on box k is the one that raises: the run has not raised before it, and it does. */
  predicate RaisedAt(lib: Library, original: Image, processed: Image, boxes: seq<Box>, k: nat, c: Controls)
    requires lib.Valid() && original.Valid() && processed.Valid() && SameShape(original, processed)
    requires k < |boxes|
  {
    var p := Painted(lib, original, processed, boxes, k, c);
    !p.raised && EffectRaises(p.image, boxes[k], ParseEffect(c.effect))
  }

  /** The black bar and the mosaic, and an unknown effect, never end a run early. */
  lemma {:induction false} NonRejectingNeverRaises(lib: Library, original: Image, processed: Image, boxes: seq<Box>, n: nat, c: Controls)
    requires lib.Valid() && original.Valid() && processed.Valid() && SameShape(original, processed)
    requires n <= |boxes| && !RejectsEmpty(ParseEffect(c.effect))
    ensures !Painted(lib, original, processed, boxes, n, c).raised
    decreases n
  {
    if n > 0 {
      NonRejectingNeverRaises(lib, original, processed, boxes, n - 1, c);
    }
  }

  /** A pixel outside every box of the run keeps its value. */
  lemma {:induction false} PaintedOutside(lib: Library, original: Image, processed: Image, boxes: seq<Box>, n: nat, c: Controls, i: nat, j: nat)
    requires lib.Valid() && original.Valid() && processed.Valid() && SameShape(original, processed)
    requires n <= |boxes| && i < processed.h && j < processed.w
    requires forall k :: 0 <= k < n ==> !Inside(Target(processed, boxes[k]), i, j)
    ensures Painted(lib, original, processed, boxes, n, c).image.px[i][j] == processed.px[i][j]
    decreases n
  {
    if n > 0 {
      PaintedOutside(lib, original, processed, boxes, n - 1, c, i, j);
      var prev := Painted(lib, original, processed, boxes, n - 1, c);
      assert Target(prev.image, boxes[n - 1]) == Target(processed, boxes[n - 1]);
      StepOutside(lib, original, prev, boxes[n - 1], c, i, j);
    }
  }

  /** A pixel outside the box keeps its value across one step of the run. */
  lemma StepOutside(lib: Library, original: Image, prev: Painting, b: Box, c: Controls, i: nat, j: nat)
    requires lib.Valid() && original.Valid() && prev.image.Valid() && SameShape(original, prev.image)
    requires i < prev.image.h && j < prev.image.w && !Inside(Target(prev.image, b), i, j)
    ensures Step(lib, original, prev, b, c).image.px[i][j] == prev.image.px[i][j]
  {
    if !prev.raised {
      var r := WriteBack(lib, original, prev.image, b, c);
      assert r.Some? ==> r.value.px[i][j] == prev.image.px[i][j];
    }
  }

  /** With an unknown effect a run leaves the image as it is. */
  lemma {:induction false} UnknownEffectPaintsNothing(lib: Library, original: Image, processed: Image, boxes: seq<Box>, n: nat, c: Controls)
    requires lib.Valid() && original.Valid() && processed.Valid() && SameShape(original, processed)
    requires n <= |boxes| && ParseEffect(c.effect) == OtherEffect
    ensures Painted(lib, original, processed, boxes, n, c) == Painting(processed, false)
    decreases n
  {
    if n > 0 {
      UnknownEffectPaintsNothing(lib, original, processed, boxes, n - 1, c);
    }
  }

  // ------------------------------------------------------------ dispatch

  /**
   * The regions `process_image` goes on to process, `None` where it returns
   * early. The detector modes find what the batch engine's dispatch finds;
   * 'full' is one box over the whole image; 'manual' takes the drawn
   * rectangles as they are, and stops when there are none; 'target_text'
   * stops for an empty word and when the word is not found; any other mode
   * stops.
   */
  function Targets(lib: Library, tesseract: bool, img: Image, c: Controls, drawing: seq<Box>): (r: Option<seq<Box>>)
    ensures ParseMode(c.mode) == FullImage ==> r == Some([Box(0, 0, img.w, img.h)])
    ensures ParseMode(c.mode) == Manual ==> r == if drawing == [] then None else Some(drawing)
    ensures ParseMode(c.mode) == OtherMode ==> r == None
    ensures ParseMode(c.mode) == TargetText ==>
      (r.None? <==> c.targetWord == "" || TextDetector.SpecificWord(lib, tesseract, Some(img), c.targetWord, TextDetector.DefaultThreshold, false, false) == [])
    ensures ParseMode(c.mode) == TargetText && r.Some? ==> forall b :: b in r.value ==> InBounds(b, img.w, img.h) && TextDetector.Large(b)
    ensures ParseMode(c.mode) in {Face, Eye, Body, LicensePlate, TextMode} ==> r == Some(BatchProcessor.ModeRegions(lib, img, ParseMode(c.mode)).boxes)
  {
    match ParseMode(c.mode)
    case TargetText =>
      if c.targetWord == "" then None
      else
        var found := TextDetector.SpecificWord(lib, tesseract, Some(img), c.targetWord, TextDetector.DefaultThreshold, false, false);
        if found == [] then None else Some(found)
    case Manual => if drawing == [] then None else Some(drawing)
    case FullImage => Some([Box(0, 0, img.w, img.h)])
    case OtherMode => None
    case _ => Some(BatchProcessor.ModeRegions(lib, img, ParseMode(c.mode)).boxes)
  }

  /** The method form of the dispatch, running the detectors' loops. */
  method FindTargets(lib: Library, tesseract: bool, img: Image, c: Controls, drawing: seq<Box>) returns (r: Option<seq<Box>>)
    requires lib.Valid()
    ensures r == Targets(lib, tesseract, img, c, drawing)
  {
    var m := ParseMode(c.mode);
    match m
    case TargetText =>
      if c.targetWord == "" {
        return None;
      }
      var found := TextDetector.DetectSpecificWord(lib, tesseract, Some(img), c.targetWord, TextDetector.DefaultThreshold, false, false);
      r := if found == [] then None else Some(found);
    case Manual =>
      r := if drawing == [] then None else Some(drawing);
    case FullImage =>
      r := Some([Box(0, 0, img.w, img.h)]);
    case OtherMode =>
      r := None;
    case _ =>
      var regions := BatchProcessor.DetectRegions(lib, img, m);
      r := Some(regions.boxes);
  }

  /**
   * What a press of "process" makes of the working image, and whether it
   * ends in "Processing failed".
   */
  function Processed(lib: Library, tesseract: bool, original: Image, processed: Image, c: Controls, drawing: seq<Box>): (r: Painting)
    requires lib.Valid() && original.Valid() && processed.Valid() && SameShape(original, processed)
    ensures r.image.Valid() && SameShape(r.image, processed)
    ensures Targets(lib, tesseract, processed, c, drawing).None? ==> r == Painting(processed, false)
    ensures Targets(lib, tesseract, processed, c, drawing).Some? ==>
      var boxes := Targets(lib, tesseract, processed, c, drawing).value;
      r == Painted(lib, original, processed, boxes, |boxes|, c)
  {
    match Targets(lib, tesseract, processed, c, drawing)
    case None => Painting(processed, false)
    case Some(boxes) => Painted(lib, original, processed, boxes, |boxes|, c)
  }

  /**
   * A blur over manual boxes whose first lies right of a 100-pixel-wide
   * image: the first box raises, and the second, inside the image, is never
   * reached.
   */
  lemma OffImageBoxEndsRun(lib: Library, tesseract: bool, original: Image, processed: Image, c: Controls)
    requires lib.Valid() && original.Valid() && processed.Valid() && SameShape(original, processed)
    requires processed.w == 100 && processed.h == 100 && c.mode == "manual" && c.effect == "blur"
    ensures Processed(lib, tesseract, original, processed, c, [Box(120, 0, 20, 20), Box(0, 0, 20, 20)]) == Painting(processed, true)
  {
    var boxes := [Box(120, 0, 20, 20), Box(0, 0, 20, 20)];
    assert ParseMode(c.mode) == Manual;
    assert ParseEffect(c.effect) == Blur;
    assert Region(processed, boxes[0]).w == 0;
    assert Painted(lib, original, processed, boxes, 1, c) == Painting(processed, true);
    RaiseEndsRun(lib, original, processed, boxes, 1, 2, c);
  }

  // ------------------------------------------------------ manual regions

  /** The rectangle `on_mouse_up` makes of two corners given in either order. */
  function Normalise(x1: int, y1: int, x2: int, y2: int): (b: Box)
    ensures b.x == Min(x1, x2) && b.x + b.w == Max(x1, x2)
    ensures b.y == Min(y1, y2) && b.y + b.h == Max(y1, y2)
    ensures b.w >= 0 && b.h >= 0
  {
    var (x, w) := if x2 > x1 then (x1, x2 - x1) else (x2, x1 - x2);
    var (y, h) := if y2 > y1 then (y1, y2 - y1) else (y2, y1 - y2);
    Box(x, y, w, h)
  }

  /** The rectangle depends on the two corners and not on the direction of the drag. */
  lemma NormaliseSymmetric(x1: int, y1: int, x2: int, y2: int)
    ensures Normalise(x1, y1, x2, y2) == Normalise(x2, y2, x1, y1)
    ensures Normalise(x1, y1, x2, y2) == Normalise(x1, y2, x2, y1)
  {
    var a := Normalise(x1, y1, x2, y2);
    var b := Normalise(x2, y2, x1, y1);
    var d := Normalise(x1, y2, x2, y1);
    assert a.x == b.x == d.x && a.w == b.w == d.w;
    assert a.y == b.y == d.y && a.h == b.h == d.h;
  }

  /** The size a drawn rectangle needs to be kept. */
  predicate BigEnough(b: Box)
  {
    b.w > 10 && b.h > 10
  }

  // ---------------------------------------------------------- the window

  /** `MainWindow`, reduced to the state its editing operations read and write. */
  class MainWindow {
    const lib: Library
    const tesseract: bool
    const history: Utils.HistoryManager
    var originalImage: Option<Image>
    var processedImage: Option<Image>
    var imagePath: Option<string>
    var drawingRegions: seq<Box>
    var drawing: bool
    var start: Option<(int, int)>

    /**
     * While an image is loaded the working image, and every state on the
     * undo and redo stacks, is a well-formed image of the original's shape.
     */
    ghost predicate Valid()
      reads this, history
    {
      && lib.Valid() && history.Valid()
      && (originalImage.Some? ==>
        && originalImage.value.Valid()
        && processedImage.Some? && Conforms(processedImage.value, originalImage.value)
        && (forall k :: 0 <= k < |history.history| ==> Conforms(history.history[k], originalImage.value))
        && (forall k :: 0 <= k < |history.redoStack| ==> Conforms(history.redoStack[k], originalImage.value)))
    }

    constructor(lib: Library, tesseract: bool)
      requires lib.Valid()
      ensures Valid() && fresh(history)
      ensures this.lib == lib && this.tesseract == tesseract && history.maxHistory == Config.MaxHistory
      ensures history.history == [] && history.redoStack == []
      ensures originalImage == None && processedImage == None && imagePath == None
      ensures drawingRegions == [] && !drawing && start == None
    {
      this.lib := lib;
      this.tesseract := tesseract;
      history := new Utils.HistoryManager(Config.MaxHistory);
      originalImage := None;
      processedImage := None;
      imagePath := None;
      drawingRegions := [];
      drawing := false;
      start := None;
    }

    /**
     * `load_image`: a cancelled pick changes nothing; otherwise the path is
     * kept and the decoded image becomes the original. A file that does not
     * decode leaves no original and the rest as it was; one that does
     * becomes the working image, and the drawn rectangles and both history
     * stacks are cleared.
     */
    method LoadImage(picked: Option<string>, read: string -> Option<Image>)
      requires Valid()
      requires picked.Some? && read(picked.value).Some? ==> read(picked.value).value.Valid()
      modifies this, history
      ensures Valid()
      ensures picked.None? || picked == Some("") ==>
        && originalImage == old(originalImage) && processedImage == old(processedImage) && imagePath == old(imagePath)
        && drawingRegions == old(drawingRegions) && unchanged(history)
      ensures picked.Some? && picked != Some("") ==>
        && imagePath == picked && originalImage == read(picked.value)
        && (originalImage.None? ==> processedImage == old(processedImage) && drawingRegions == old(drawingRegions) && unchanged(history))
        && (originalImage.Some? ==> processedImage == originalImage && drawingRegions == [] && history.history == [] && history.redoStack == [])
      ensures drawing == old(drawing) && start == old(start)
    {
      if picked.None? || picked.value == "" {
        return;
      }
      imagePath := picked;
      originalImage := read(picked.value);
      if originalImage.None? {
        return;
      }
      processedImage := originalImage;
      drawingRegions := [];
      history.Clear();
    }

    /**
     * `apply_effect_to_region` on the working image: `raised` when the
     * effect raises, which leaves the image as it was. Only the working
     * image changes.
     */
    method ApplyEffectToRegion(b: Box, c: Controls) returns (raised: bool)
      requires Valid() && originalImage.Some?
      modifies this
      ensures Valid()
      ensures originalImage == old(originalImage) && imagePath == old(imagePath)
      ensures var r := WriteBack(lib, originalImage.value, old(processedImage).value, b, c);
        && (raised <==> r.None?)
        && processedImage == if raised then old(processedImage) else r
      ensures processedImage.Some? &&
        Painting(processedImage.value, raised) == Step(lib, originalImage.value, Painting(old(processedImage).value, false), b, c)
      ensures drawingRegions == old(drawingRegions) && drawing == old(drawing) && start == old(start)
    {
      raised := false;
      var original := originalImage.value;
      var processed := processedImage.value;
      var originalRegion := Region(original, b);
      var k := ParseEffect(c.effect);
      if EffectRaises(processed, b, k) {
        raised := true;
        return;
      }
      var e := RunEffect(lib, processed, b, k, c.blurStrength, c.pixelSize);
      if e.None? {
        return;
      }
      var result := e.value;
      if c.opacity < 100 {
        result := ApplyOpacity(lib, originalRegion, result, c.opacity);
      }
      processedImage := Some(Paste(processed, Target(processed, b), result));
    }

    /**
     * `process_image`: nothing without an original. Otherwise the working
     * image is pushed onto the undo history FIRST, which also empties the
     * redo stack, even when the dispatch then returns early; then each
     * region gets the effect, until one raises: `failed` is the "Processing
     * failed" message.
     */
    method ProcessImage(c: Controls) returns (failed: bool)
      requires Valid()
      modifies this, history
      ensures Valid()
      ensures old(originalImage).None? ==> processedImage == old(processedImage) && unchanged(history)
      ensures originalImage == old(originalImage) && imagePath == old(imagePath)
      ensures drawingRegions == old(drawingRegions) && drawing == old(drawing) && start == old(start)
      ensures old(originalImage).Some? ==>
        && history.history == Utils.Saved(old(history.history), old(processedImage).value, history.maxHistory)
        && history.redoStack == []
        && var r := Processed(lib, tesseract, originalImage.value, old(processedImage).value, c, drawingRegions);
          processedImage == Some(r.image) && failed == r.raised
      ensures old(originalImage).None? ==> !failed
    {
      failed := false;
      if originalImage.None? {
        return;
      }
      var original := originalImage.value;
      var processed := processedImage.value;
      ghost var before := history.history;
      history.SaveState(processedImage);
      SavedConforms(before, processed, history.maxHistory, original);
      var regions := FindTargets(lib, tesseract, processed, c, drawingRegions);
      if regions.None? {
        return;
      }
      var boxes := regions.value;
      failed := PaintBoxes(boxes, c, original, processed);
    }

    /** The loop of process_image: applies the effect box by box until one raises. */
    method PaintBoxes(boxes: seq<Box>, c: Controls, ghost original: Image, ghost processed: Image) returns (failed: bool)
      requires Valid() && originalImage == Some(original) && processedImage == Some(processed)
      modifies this
      ensures Valid() && originalImage == Some(original) && processedImage.Some?
      ensures Painting(processedImage.value, failed) == Painted(lib, original, processed, boxes, |boxes|, c)
      ensures imagePath == old(imagePath) && drawingRegions == old(drawingRegions)
      ensures drawing == old(drawing) && start == old(start)
    {
      failed := false;
      var i := 0;
      while i < |boxes| && !failed
        invariant 0 <= i <= |boxes|
        invariant Valid() && originalImage == Some(original) && processedImage.Some?
        invariant Painting(processedImage.value, failed) == Painted(lib, original, processed, boxes, i, c)
        invariant imagePath == old(imagePath) && drawingRegions == old(drawingRegions)
        invariant drawing == old(drawing) && start == old(start)
      {
        failed := ApplyEffectToRegion(boxes[i], c);
        i := i + 1;
      }
      if failed {
        RaiseEndsRun(lib, original, processed, boxes, i, |boxes|, c);
      }
    }

    /**
     * `undo`: with an empty history nothing changes. Otherwise the most
     * recent state becomes the working image and the working image goes
     * onto the redo stack.
     */
    method Undo()
      requires Valid()
      modifies this, history
      ensures Valid()
      ensures old(history.history) == [] ==>
        processedImage == old(processedImage) && history.history == [] && history.redoStack == old(history.redoStack)
      ensures old(history.history) != [] ==>
        var n := |old(history.history)|;
        && processedImage == Some(old(history.history)[n - 1])
        && history.history == old(history.history)[..n - 1]
        && history.redoStack == old(history.redoStack) + (if old(processedImage).Some? then [old(processedImage).value] else [])
      ensures originalImage == old(originalImage) && imagePath == old(imagePath)
      ensures drawingRegions == old(drawingRegions) && drawing == old(drawing) && start == old(start)
    {
      var prev := history.Undo();
      if prev.Some? {
        history.AddToRedo(processedImage);
        processedImage := prev;
      }
    }

    /**
     * `redo`: with an empty redo stack nothing changes. Otherwise the most
     * recently undone state becomes the working image, and the working image
     * is saved to the history, which empties the redo stack: a second redo
     * is never possible.
     */
    method Redo()
      requires Valid()
      modifies this, history
      ensures Valid()
      ensures old(history.redoStack) == [] ==>
        processedImage == old(processedImage) && history.history == old(history.history) && history.redoStack == []
      ensures old(history.redoStack) != [] ==>
        var n := |old(history.redoStack)|;
        && processedImage == Some(old(history.redoStack)[n - 1])
        && (old(processedImage).Some? ==>
          history.history == Utils.Saved(old(history.history), old(processedImage).value, history.maxHistory) && history.redoStack == [])
        && (old(processedImage).None? ==> history.history == old(history.history) && history.redoStack == old(history.redoStack)[..n - 1])
      ensures originalImage == old(originalImage) && imagePath == old(imagePath)
      ensures drawingRegions == old(drawingRegions) && drawing == old(drawing) && start == old(start)
    {
      var next := history.Redo();
      if next.Some? {
        ghost var before := history.history;
        history.SaveState(processedImage);
        if originalImage.Some? {
          SavedConforms(before, processedImage.value, history.maxHistory, originalImage.value);
        }
        processedImage := next;
      }
    }

    /** `clear_regions`: the drawn rectangles are forgotten. */
    method ClearRegions()
      requires Valid()
      modifies this
      ensures Valid()
      ensures drawingRegions == []
      ensures originalImage == old(originalImage) && processedImage == old(processedImage) && imagePath == old(imagePath)
      ensures drawing == old(drawing) && start == old(start)
    {
      drawingRegions := [];
    }

    /** `reset_image`: with an original, it becomes the working image again, and the rectangles and history are cleared. */
    method ResetImage()
      requires Valid()
      modifies this, history
      ensures Valid()
      ensures old(originalImage).None? ==> processedImage == old(processedImage) && drawingRegions == old(drawingRegions) && unchanged(history)
      ensures old(originalImage).Some? ==>
        processedImage == originalImage && drawingRegions == [] && history.history == [] && history.redoStack == []
      ensures originalImage == old(originalImage) && imagePath == old(imagePath)
      ensures drawing == old(drawing) && start == old(start)
    {
      if originalImage.Some? {
        processedImage := originalImage;
        drawingRegions := [];
        history.Clear();
      }
    }

    /** `on_mouse_down`: a drag starts only in 'manual' mode with an image loaded. */
    method MouseDown(mode: string, x: int, y: int)
      requires Valid()
      modifies this
      ensures Valid()
      ensures mode == "manual" && originalImage.Some? ==> drawing && start == Some((x, y))
      ensures !(mode == "manual" && originalImage.Some?) ==> drawing == old(drawing) && start == old(start)
      ensures originalImage == old(originalImage) && processedImage == old(processedImage) && imagePath == old(imagePath)
      ensures drawingRegions == old(drawingRegions)
    {
      if mode == "manual" && originalImage.Some? {
        drawing := true;
        start := Some((x, y));
      }
    }

    /**
     * `on_mouse_up`: a drag in progress ends; the rectangle between its two
     * corners, in image coordinates, is kept when it is wider and taller
     * than 10 pixels.
     */
    method MouseUp(x: int, y: int, toImage: (int, int) -> (int, int))
      requires Valid() && (drawing ==> start.Some?)
      modifies this
      ensures Valid()
      ensures !old(drawing) ==> drawingRegions == old(drawingRegions) && drawing == old(drawing)
      ensures old(drawing) ==>
        var p := toImage(old(start).value.0, old(start).value.1);
        var q := toImage(x, y);
        var b := Normalise(p.0, p.1, q.0, q.1);
        && !drawing
        && drawingRegions == old(drawingRegions) + (if BigEnough(b) then [b] else [])
      ensures originalImage == old(originalImage) && processedImage == old(processedImage) && imagePath == old(imagePath)
      ensures start == old(start)
    {
      if drawing {
        drawing := false;
        var (x1, y1) := toImage(start.value.0, start.value.1);
        var (x2, y2) := toImage(x, y);
        var b := Normalise(x1, y1, x2, y2);
        if b.w > 10 && b.h > 10 {
          drawingRegions := drawingRegions + [b];
        }
      }
    }
  }

  /** A state of the working image: well formed and of the original's shape. */
  predicate Conforms(img: Image, original: Image)
  {
    img.Valid() && SameShape(img, original)
  }

  /** Saving a conforming image onto a conforming history keeps every state conforming. */
  lemma SavedConforms(history: seq<Image>, image: Image, maxHistory: int, original: Image)
    requires forall k :: 0 <= k < |history| ==> Conforms(history[k], original)
    requires Conforms(image, original)
    ensures var r := Utils.Saved(history, image, maxHistory);
      forall k :: 0 <= k < |r| ==> Conforms(r[k], original)
  {
    var r := Utils.Saved(history, image, maxHistory);
    forall k | 0 <= k < |r|
      ensures Conforms(r[k], original)
    {
      var h := history + [image];
      if |h| > maxHistory {
        assert r[k] == h[k + 1];
      } else {
        assert r[k] == h[k];
      }
    }
  }

  /**
   * Undo followed by redo gives back the working image and the history, but
   * every other state that could have been redone is gone.
   */
  method UndoThenRedo(w: MainWindow)
    requires w.Valid() && w.history.history != [] && w.processedImage.Some?
    modifies w, w.history
    ensures w.processedImage == old(w.processedImage)
    ensures w.history.history == old(w.history.history)
    ensures w.history.redoStack == []
  {
    ghost var h := w.history.history;
    w.Undo();
    w.Redo();
    assert h[..|h| - 1] + [h[|h| - 1]] == h;
  }
}
