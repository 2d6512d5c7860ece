/**
 * The configuration tables of the application: parameter ranges, the effect
 * and detection-mode tables and the lists the GUI builds from them, the file
 * filters, limits, presets, and the two functions that read them.
 */
module Config {
  import opened Wrappers
  import opened PyDict

  /** A slider range: `{'min', 'max', 'default', 'step'}`. */
  datatype Range = Range(min: int, max: int, default: int, step: int)

  const BlurRange: Range := Range(15, 199, 51, 2)
  const PixelRange: Range := Range(5, 50, 15, 1)
  const OpacityRange: Range := Range(0, 100, 100, 1)
  const EdgeBlurRange: Range := Range(0, 50, 10, 1)

  /** One entry of `EFFECTS`. */
  datatype EffectInfo = EffectInfo(name: string, icon: string, description: string, parameters: seq<string>)

  const Effects: seq<(string, EffectInfo)> := [
    ("blur", EffectInfo("Gaussian Blur", "\U{1F32B}\U{FE0F}", "Smooth blur effect using Gaussian algorithm", ["blur_strength", "opacity"])),
    ("pixelation", EffectInfo("Pixelation", "\U{1F532}", "Classic pixel censoring effect", ["pixel_size", "opacity"])),
    ("black_bar", EffectInfo("Black Bar", "\U{2B1B}", "Solid black censoring bar", ["opacity"])),
    ("gradient", EffectInfo("Gradient Fade", "\U{1F3AD}", "Artistic gradient fade effect", ["opacity"])),
    ("mosaic", EffectInfo("Mosaic", "\U{1F533}", "Mosaic tile effect", ["opacity"])),
    ("glass", EffectInfo("Frosted Glass", "\U{2744}\U{FE0F}", "Glass-like blur effect", ["blur_strength", "opacity"])),
    ("oil_paint", EffectInfo("Oil Paint", "\U{1F3A8}", "Artistic oil painting effect", ["opacity"]))
  ]


  /** `EFFECT_LIST`: (label shown in the GUI, effect key). */
  const EffectList: seq<(string, string)> := [
    ("\U{1F32B}\U{FE0F} Blur", "blur"),
    ("\U{1F532} Pixelation", "pixelation"),
    ("\U{2B1B} Black Bar", "black_bar"),
    ("\U{1F3AD} Gradient", "gradient"),
    ("\U{1F533} Mosaic", "mosaic"),
    ("\U{2744}\U{FE0F} Frosted Glass", "glass"),
    ("\U{1F3A8} Oil Paint", "oil_paint")
  ]

  /** One entry of `DETECTION_MODES`; `cascade` is the Haar cascade file, `None` for the modes that use other algorithms. */
  datatype DetectionInfo = DetectionInfo(name: string, icon: string, description: string, cascade: Option<string>)

  const DetectionModes: seq<(string, DetectionInfo)> := [
    ("face", DetectionInfo("Face Detection", "\U{1F3AD}", "Detect and process human faces", Some("haarcascade_frontalface_default.xml"))),
    ("eye", DetectionInfo("Eye Detection", "\U{1F441}\U{FE0F}", "Detect and process eyes", Some("haarcascade_eye.xml"))),
    ("body", DetectionInfo("Full Body", "\U{1F9CD}", "Detect and process full body", Some("haarcascade_fullbody.xml"))),
    ("license_plate", DetectionInfo("License Plate", "\U{1F697}", "Detect and process license plates", None)),
    ("text", DetectionInfo("Text Detection", "\U{1F4DD}", "Detect and process text regions (requires Tesseract)", None)),
    ("manual", DetectionInfo("Manual Selection", "\U{270F}\U{FE0F}", "Manually draw regions to process", None)),
    ("full", DetectionInfo("Full Image", "\U{1F30D}", "Process entire image", None))
  ]


  /** `DETECTION_LIST`: (label shown in the GUI, mode key). */
  const DetectionList: seq<(string, string)> := [
    ("\U{1F3AD} Face", "face"),
    ("\U{1F441}\U{FE0F} Eyes", "eye"),
    ("\U{1F9CD} Full Body", "body"),
    ("\U{1F697} License Plate", "license_plate"),
    ("\U{1F4DD} Text", "text"),
    ("\U{270F}\U{FE0F} Manual", "manual"),
    ("\U{1F30D} Full Image", "full")
  ]

  /** `SUPPORTED_FORMATS`: file-dialog filters (description, space-separated glob patterns). */
  const SupportedFormats: seq<(string, string)> := [
    ("All Supported Images", "*.jpg *.jpeg *.png *.bmp *.gif *.tiff *.webp"),
    ("JPEG Images", "*.jpg *.jpeg"),
    ("PNG Images", "*.png"),
    ("BMP Images", "*.bmp"),
    ("TIFF Images", "*.tiff *.tif"),
    ("WebP Images", "*.webp"),
    ("All Files", "*.*")
  ]

  const MaxImageWidth: int := 4000
  const MaxImageHeight: int := 4000
  const MaxImageSizeMb: int := 50
  const MaxHistory: int := 20

  /** One entry of `EFFECT_PRESETS`; the keys a preset does not carry are `None`. */
  datatype Preset = Preset(description: string, effect: string, blurStrength: Option<int>,
                           pixelSize: Option<int>, opacity: int, detectionMode: string)

  const EffectPresets: seq<(string, Preset)> := [
    ("Light Privacy", Preset("Subtle privacy protection", "blur", Some(31), None, 70, "face")),
    ("Medium Privacy", Preset("Balanced privacy and visibility", "pixelation", None, Some(15), 100, "face")),
    ("Maximum Privacy", Preset("Complete censoring", "black_bar", None, None, 100, "face")),
    ("Artistic Blur", Preset("Aesthetic blur effect", "glass", Some(41), None, 90, "face")),
    ("License Plate Blur", Preset("For vehicle privacy", "blur", Some(75), None, 100, "license_plate")),
    ("Text Redaction", Preset("Hide sensitive text", "black_bar", None, None, 100, "text"))
  ]

  /** `DIRS`, given the per-user system directory and the exports directory the platform yields. */
  function Dirs(systemDir: string, documentsDir: string): seq<(string, string)>
  {
    [("backups", systemDir + "/backups"), ("logs", systemDir + "/logs"),
     ("presets", systemDir + "/presets"), ("temp", systemDir + "/temp"),
     ("exports", documentsDir)]
  }

  /** The module-level values `validate_config` inspects. */
  datatype Settings = Settings(blurRange: Range, maxImageWidth: int, maxImageHeight: int,
                               maxHistory: int, dirs: seq<(string, string)>)

  function Shipped(systemDir: string, documentsDir: string): Settings
  {
    Settings(BlurRange, MaxImageWidth, MaxImageHeight, MaxHistory, Dirs(systemDir, documentsDir))
  }

  const BlurOrderError := "BLUR_RANGE: min must be less than max"
  const BlurOddError := "BLUR_RANGE: min must be odd number"
  const SizeLimitError := "Image size limits must be positive"
  const HistoryError := "MAX_HISTORY must be at least 1"

  const MissingDirPrefix := "Directory does not exist: "

  function MissingDirError(name: string, path: string): string
  {
    MissingDirPrefix + name + " (" + path + ")"
  }

  /** Every check `validate_config` makes passes. */
  predicate ConfigOk(s: Settings, exists_: string -> bool)
  {
    && s.blurRange.min < s.blurRange.max
    && s.blurRange.min % 2 != 0
    && s.maxImageWidth > 0 && s.maxImageHeight > 0
    && s.maxHistory >= 1
    && forall i :: 0 <= i < |s.dirs| ==> exists_(s.dirs[i].1)
  }

  /**
   * `validate_config()`: one message per failed check, in the order of the
   * checks; `exists_` is `Path.exists` on the file system.
   */
  method ValidateConfig(s: Settings, exists_: string -> bool) returns (errors: seq<string>)
    ensures BlurOrderError in errors <==> s.blurRange.min >= s.blurRange.max
    ensures BlurOddError in errors <==> s.blurRange.min % 2 == 0
    ensures SizeLimitError in errors <==> s.maxImageWidth <= 0 || s.maxImageHeight <= 0
    ensures HistoryError in errors <==> s.maxHistory < 1
    ensures forall i :: 0 <= i < |s.dirs| && !exists_(s.dirs[i].1) ==> MissingDirError(s.dirs[i].0, s.dirs[i].1) in errors
    ensures forall e :: e in errors ==>
      e in [BlurOrderError, BlurOddError, SizeLimitError, HistoryError] ||
      exists i :: 0 <= i < |s.dirs| && !exists_(s.dirs[i].1) && e == MissingDirError(s.dirs[i].0, s.dirs[i].1)
    ensures errors == [] <==> ConfigOk(s, exists_)
  {
    errors := FixedChecks(s);
    var missing := MissingDirs(s.dirs, exists_);
    forall i | 0 <= i < |s.dirs|
      ensures MissingDirError(s.dirs[i].0, s.dirs[i].1) !in errors
    {
      MissingDirErrorDistinct(s.dirs[i].0, s.dirs[i].1);
    }
    forall e | e in missing
      ensures e != BlurOrderError && e != BlurOddError && e != SizeLimitError && e != HistoryError
    {
      var i :| 0 <= i < |s.dirs| && !exists_(s.dirs[i].1) && e == MissingDirError(s.dirs[i].0, s.dirs[i].1);
      MissingDirErrorDistinct(s.dirs[i].0, s.dirs[i].1);
    }
    errors := errors + missing;
  }

  /** The four checks on the constants, each adding its message when it fails. */
  method FixedChecks(s: Settings) returns (errors: seq<string>)
    ensures BlurOrderError in errors <==> s.blurRange.min >= s.blurRange.max
    ensures BlurOddError in errors <==> s.blurRange.min % 2 == 0
    ensures SizeLimitError in errors <==> s.maxImageWidth <= 0 || s.maxImageHeight <= 0
    ensures HistoryError in errors <==> s.maxHistory < 1
    ensures forall e :: e in errors ==> e in [BlurOrderError, BlurOddError, SizeLimitError, HistoryError]
    ensures errors == [] <==>
      s.blurRange.min < s.blurRange.max && s.blurRange.min % 2 != 0
      && s.maxImageWidth > 0 && s.maxImageHeight > 0 && s.maxHistory >= 1
  {
    errors := [];
    if s.blurRange.min >= s.blurRange.max {
      errors := errors + [BlurOrderError];
    }
    if s.blurRange.min % 2 == 0 {
      errors := errors + [BlurOddError];
    }
    if s.maxImageWidth <= 0 || s.maxImageHeight <= 0 {
      errors := errors + [SizeLimitError];
    }
    if s.maxHistory < 1 {
      errors := errors + [HistoryError];
    }
  }

  /** The loop over the directories: one message per directory that does not exist. */
  method MissingDirs(dirs: seq<(string, string)>, exists_: string -> bool) returns (missing: seq<string>)
    ensures forall e :: e in missing ==> exists i :: 0 <= i < |dirs| && !exists_(dirs[i].1) && e == MissingDirError(dirs[i].0, dirs[i].1)
    ensures forall i :: 0 <= i < |dirs| && !exists_(dirs[i].1) ==> MissingDirError(dirs[i].0, dirs[i].1) in missing
    ensures missing == [] <==> forall i :: 0 <= i < |dirs| ==> exists_(dirs[i].1)
  {
    missing := [];
    for k := 0 to |dirs|
      invariant forall e :: e in missing ==> exists i :: 0 <= i < k && !exists_(dirs[i].1) && e == MissingDirError(dirs[i].0, dirs[i].1)
      invariant forall i :: 0 <= i < k && !exists_(dirs[i].1) ==> MissingDirError(dirs[i].0, dirs[i].1) in missing
      invariant missing == [] <==> forall i :: 0 <= i < k ==> exists_(dirs[i].1)
    {
      var (name, path) := dirs[k];
      if !exists_(path) {
        missing := missing + [MissingDirError(name, path)];
      }
    }
  }

  /** A missing-directory message never reads like one of the four fixed messages. */
  lemma MissingDirErrorDistinct(name: string, path: string)
    ensures MissingDirError(name, path) != BlurOrderError
    ensures MissingDirError(name, path) != BlurOddError
    ensures MissingDirError(name, path) != SizeLimitError
    ensures MissingDirError(name, path) != HistoryError
  {
    var m := MissingDirError(name, path);
    assert m[0] == 'D';
    assert BlurOrderError[0] == 'B' && BlurOddError[0] == 'B' && SizeLimitError[0] == 'I' && HistoryError[0] == 'M';
  }

  /** The shipped constants pass every check, given that the directories exist (they are created on import). */
  lemma ShippedConfigOk(systemDir: string, documentsDir: string, exists_: string -> bool)
    requires forall i :: 0 <= i < |Dirs(systemDir, documentsDir)| ==> exists_(Dirs(systemDir, documentsDir)[i].1)
    ensures ConfigOk(Shipped(systemDir, documentsDir), exists_)
  {
  }

  /**
   * `get_cascade_path(mode)`: `haarDir + file` for a mode whose entry names a
   * cascade file; `None` for an unknown mode and for a mode whose cascade is
   * `None`. `haarDir` is OpenCV's `cv2.data.haarcascades`.
   */
  function GetCascadePath(mode: string, haarDir: string): (r: Option<string>)
    ensures mode !in Keys(DetectionModes) ==> r == None
  {
    match Lookup(DetectionModes, mode)
    case None => None
    case Some(info) =>
      match info.cascade
      case None => None
      case Some(file) => Some(haarDir + file)
  }

  /** No mode is listed twice. */
  lemma DetectionModesDistinct()
    ensures DistinctKeys(DetectionModes)
  {
    var d := DetectionModes;
    forall a, b | 0 <= a < b < |d|
      ensures d[a].0 != d[b].0
    {
      var x, y := d[a].0, d[b].0;
      assert |x| != |y| || x[0] != y[0] || x[1] != y[1];
    }
  }

  /** A path comes back exactly for a listed mode whose entry names a cascade file. */
  lemma CascadeKnown(mode: string, haarDir: string)
    ensures GetCascadePath(mode, haarDir).Some?
      <==> exists i :: 0 <= i < |DetectionModes| && DetectionModes[i].0 == mode && DetectionModes[i].1.cascade.Some?
  {
    if i :| 0 <= i < |DetectionModes| && DetectionModes[i].0 == mode && DetectionModes[i].1.cascade.Some? {
      DetectionModesDistinct();
      LookupAt(DetectionModes, i, mode);
    }
  }

  /** Face, eye and body detection use the cascade file their table entry names. */
  lemma HaarCascadePaths(haarDir: string)
    ensures GetCascadePath("face", haarDir) == Some(haarDir + "haarcascade_frontalface_default.xml")
    ensures GetCascadePath("eye", haarDir) == Some(haarDir + "haarcascade_eye.xml")
    ensures GetCascadePath("body", haarDir) == Some(haarDir + "haarcascade_fullbody.xml")
  {
    DetectionModesDistinct();
    LookupAt(DetectionModes, 0, "face");
    LookupAt(DetectionModes, 1, "eye");
    LookupAt(DetectionModes, 2, "body");
  }

  /** Each default lies within its range and the blur default is odd. */
  lemma DefaultsWithinRanges()
    ensures forall r :: r in [BlurRange, PixelRange, OpacityRange, EdgeBlurRange] ==> r.min <= r.default <= r.max
    ensures BlurRange.default % 2 == 1
  {
  }

  /** The effect list of the GUI names exactly the effect keys, in table order, each label led by its effect's icon. */
  lemma EffectListMatchesEffects()
    ensures |EffectList| == |Effects|
    ensures forall i :: 0 <= i < |Effects| ==> EffectList[i].1 == Effects[i].0
    ensures forall i :: 0 <= i < |Effects| ==> Effects[i].1.icon <= EffectList[i].0
  {
  }

  /** The detection list of the GUI names exactly the mode keys, in table order, each label led by its mode's icon. */
  lemma DetectionListMatchesModes()
    ensures |DetectionList| == |DetectionModes|
    ensures forall i :: 0 <= i < |DetectionModes| ==> DetectionList[i].1 == DetectionModes[i].0
    ensures forall i :: 0 <= i < |DetectionModes| ==> DetectionModes[i].1.icon <= DetectionList[i].0
  {
  }

  /** Every preset names a known effect. */
  lemma PresetEffectsKnown()
    ensures forall i :: 0 <= i < |EffectPresets| ==> EffectPresets[i].1.effect in Keys(Effects)
  {
  }

  /** Every preset names a known detection mode. */
  lemma PresetModesKnown()
    ensures forall i :: 0 <= i < |EffectPresets| ==> EffectPresets[i].1.detectionMode in Keys(DetectionModes)
  {
  }
}
