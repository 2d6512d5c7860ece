/**
 * The string dispatch shared by the batch engine and the main window: the
 * detection mode and the effect are strings compared one after another
 * against the known names, and a name outside the chain takes its own
 * path. Each chain is read once into a datatype here.
 */
module Dispatch {
  import opened Wrappers
  import opened Imaging
  import opened ImageProcessor
  import opened PyDict
  import Config

  /** The detection modes the `if`/`elif` chains name; `OtherMode` is every other string. */
  datatype Mode = Face | Eye | Body | LicensePlate | TextMode | TargetText | Manual | FullImage | OtherMode

  /** The names the chains test, in their order. */
  const ModeNames: seq<string> := ["face", "eye", "body", "license_plate", "text", "target_text", "manual", "full"]

  function ParseMode(mode: string): (m: Mode)
    ensures m == FullImage <==> mode == "full"
    ensures m == Manual <==> mode == "manual"
    ensures m == TargetText <==> mode == "target_text"
    ensures m != OtherMode <==> mode in ModeNames
  {
    if mode == "face" then Face
    else if mode == "eye" then Eye
    else if mode == "body" then Body
    else if mode == "license_plate" then LicensePlate
    else if mode == "text" then TextMode
    else if mode == "target_text" then TargetText
    else if mode == "manual" then Manual
    else if mode == "full" then FullImage
    else OtherMode
  }

  /** The effects the chains name; `OtherEffect` is every other string. */
  datatype EffectKind = Blur | Pixelation | BlackBarEffect | Gradient | MosaicEffect | Glass | OilPaintEffect | OtherEffect

  const EffectNames: seq<string> := ["blur", "pixelation", "black_bar", "gradient", "mosaic", "glass", "oil_paint"]

  function ParseEffect(effect: string): (k: EffectKind)
    ensures k != OtherEffect <==> effect in EffectNames
  {
    if effect == "blur" then Blur
    else if effect == "pixelation" then Pixelation
    else if effect == "black_bar" then BlackBarEffect
    else if effect == "gradient" then Gradient
    else if effect == "mosaic" then MosaicEffect
    else if effect == "glass" then Glass
    else if effect == "oil_paint" then OilPaintEffect
    else OtherEffect
  }

  /**
   * The new region the effect `k` makes of the box `b` of `img`, `None` for
   * an unknown effect. Every effect keeps the shape of the region; the
   * gradient gives back the region itself and the black bar is black.
   */
  function Effect(lib: Library, img: Image, b: Box, k: EffectKind, strength: int, pixelSize: int): (r: Option<Image>)
    requires img.Valid()
    ensures r.None? <==> k == OtherEffect
    ensures lib.Valid() && r.Some? ==> r.value.Valid() && SameShape(r.value, Region(img, b))
    ensures k == Gradient ==> r == Some(Region(img, b))
    ensures k == BlackBarEffect ==> r == Some(BlackBar(img, b))
  {
    match k
    case Blur => Some(GaussianBlur(lib, img, b, strength))
    case Pixelation => Some(Pixelate(lib, img, b, pixelSize))
    case BlackBarEffect => Some(BlackBar(img, b))
    case Gradient => Some(Region(img, b))
    case MosaicEffect => Some(MosaicOf(Region(img, b), MosaicTileSize))
    case Glass => Some(FrostedGlass(lib, img, b))
    case OilPaintEffect => Some(OilPaint(lib, img, b))
    case OtherEffect => None
  }

  /**
   * The effects that raise on an empty region: blur and the gradient fade
   * call `cv2.GaussianBlur`, pixelation `cv2.resize`, frosted glass
   * `cv2.cvtColor` and the oil painting `xphoto.oilPainting` or its
   * `bilateralFilter` fallback, and each of these rejects an empty input.
   * The black bar and the mosaic only copy and index.
   */
  predicate RejectsEmpty(k: EffectKind)
  {
    k == Blur || k == Pixelation || k == Gradient || k == Glass || k == OilPaintEffect
  }

  /** Running the effect `k` on the box `b` of `img` raises: the box selects no pixel and the effect's kernel rejects that. */
  predicate EffectRaises(img: Image, b: Box, k: EffectKind)
    requires img.Valid()
  {
    RejectsEmpty(k) && Empty(Region(img, b))
  }

  /** The dispatch as the source runs it, through the loops of `gradient_fade` and `mosaic_effect`. */
  method RunEffect(lib: Library, img: Image, b: Box, k: EffectKind, strength: int, pixelSize: int) returns (r: Option<Image>)
    requires img.Valid() && lib.Valid()
    ensures r == Effect(lib, img, b, k, strength, pixelSize)
  {
    match k
    case Blur =>
      r := Some(GaussianBlur(lib, img, b, strength));
    case Pixelation =>
      r := Some(Pixelate(lib, img, b, pixelSize));
    case BlackBarEffect =>
      r := Some(BlackBar(img, b));
    case Gradient =>
      var region := GradientFade(lib, img, b);
      r := Some(region);
    case MosaicEffect =>
      var region := Mosaic(img, b, MosaicTileSize);
      r := Some(region);
    case Glass =>
      r := Some(FrostedGlass(lib, img, b));
    case OilPaintEffect =>
      r := Some(OilPaint(lib, img, b));
    case OtherEffect =>
      r := None;
  }

  /** A box the size of the whole image selects all of it. */
  lemma FullRegion(img: Image)
    requires img.Valid()
    ensures Region(img, Box(0, 0, img.w, img.h)) == img
  {
    ImageEquality(Region(img, Box(0, 0, img.w, img.h)), img);
  }

  /** The effect chain names exactly the keys of `EFFECTS`, in table order. */
  lemma EffectNamesAreEffectKeys()
    ensures |EffectNames| == |Config.Effects|
    ensures forall i :: 0 <= i < |EffectNames| ==> EffectNames[i] == Config.Effects[i].0
  {
  }

  /**
   * The mode chain names the keys of `DETECTION_MODES` in table order, with
   * 'target_text', which the table does not list, checked between 'text'
   * and 'manual'.
   */
  lemma ModeNamesAreModeKeys()
    ensures |ModeNames| == |Config.DetectionModes| + 1
    ensures forall i :: 0 <= i < 5 ==> ModeNames[i] == Config.DetectionModes[i].0
    ensures ModeNames[5] == "target_text"
    ensures forall i :: 6 <= i < |ModeNames| ==> ModeNames[i] == Config.DetectionModes[i - 1].0
  {
  }

  /** 'target_text' is not a key of `DETECTION_MODES`. */
  lemma TargetTextNotAKey()
    ensures "target_text" !in Keys(Config.DetectionModes)
  {
    assert forall i :: 0 <= i < |Config.DetectionModes| ==> Config.DetectionModes[i].0 != "target_text";
    KeyAbsent(Config.DetectionModes, "target_text");
  }
}
