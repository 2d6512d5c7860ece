/**
 * `BatchProcessor`: run one detection mode and one effect over a list of
 * files, one result record and at most one callback per file, and sort a
 * list of paths into valid and invalid ones before a run.
 *
 * Reading a file is the parameter `read` (`cv2.imread`, `None` when the
 * file cannot be decoded); writing is the image an outcome carries; the
 * callbacks are the sequence of calls the run makes to them.
 */
module BatchProcessor {
  import opened Wrappers
  import opened Imaging
  import opened ImageProcessor
  import opened PyText
  import opened PyDict
  import opened PyPath
  import opened Dispatch
  import Config
  import Utils

  // ----------------------------------------------------------- settings

  /**
   * The settings dictionary of a run; `None` is a missing key (a missing
   * `effect_params` dictionary leaves both of its keys missing).
   */
  datatype BatchSettings = BatchSettings(
    detectionMode: Option<string>,
    effectType: Option<string>,
    blurStrength: Option<int>,
    pixelSize: Option<int>)

  function Get<T>(o: Option<T>, default: T): T
  {
    if o.Some? then o.value else default
  }

  /** The mode `settings.get('detection_mode', 'face')` selects. */
  function ModeOf(s: BatchSettings): Mode
  {
    if s.detectionMode.Some? then ParseMode(s.detectionMode.value) else Face
  }

  /** The effect `settings.get('effect_type', 'blur')` selects. */
  function EffectOf(s: BatchSettings): EffectKind
  {
    if s.effectType.Some? then ParseEffect(s.effectType.value) else Blur
  }

  /** The defaults select what their names do. */
  lemma DefaultsParse()
    ensures ModeOf(BatchSettings(None, None, None, None)) == ParseMode("face")
    ensures EffectOf(BatchSettings(None, None, None, None)) == ParseEffect("blur")
  {
  }

  /**
   * `_apply_effect_to_region`: the effect's result takes the place of the
   * whole working image; an unknown effect leaves it as it is, and opacity
   * is never applied.
   */
  function BatchEffect(lib: Library, img: Image, b: Box, s: BatchSettings): (r: Image)
    requires img.Valid()
    ensures EffectOf(s) == OtherEffect ==> r == img
    ensures EffectOf(s) != OtherEffect && lib.Valid() ==> r.Valid() && SameShape(r, Region(img, b))
    ensures lib.Valid() ==> r.Valid()
  {
    var e := Effect(lib, img, b, EffectOf(s),
      Get(s.blurStrength, Config.BlurRange.default), Get(s.pixelSize, Config.PixelRange.default));
    if e.Some? then e.value else img
  }

  /** The method form of `_apply_effect_to_region`. */
  method ApplyEffectToRegion(lib: Library, img: Image, b: Box, s: BatchSettings) returns (r: Image)
    requires img.Valid() && lib.Valid()
    ensures r == BatchEffect(lib, img, b, s)
  {
    var strength := Get(s.blurStrength, Config.BlurRange.default);
    var pixelSize := Get(s.pixelSize, Config.PixelRange.default);
    var e := RunEffect(lib, img, b, EffectOf(s), strength, pixelSize);
    if e.Some? {
      r := e.value;
    } else {
      r := img;
    }
  }

  /** On the box of the whole image a known effect yields an image of the same shape. */
  lemma FullImageEffect(lib: Library, img: Image, s: BatchSettings)
    requires img.Valid() && lib.Valid() && EffectOf(s) != OtherEffect
    ensures SameShape(BatchEffect(lib, img, Box(0, 0, img.w, img.h), s), img)
  {
    FullRegion(img);
  }

  // --------------------------------------------------------- detection

  /** What `detect_text` returns: the OCR path's boxes, or the contour fallback's. */
  function TextBoxes(lib: Library, img: Image): seq<Box>
  {
    var data := lib.ocr(GrayDefault, img);
    if data.Some? && OcrBoxes(data.value).Some? then OcrBoxes(data.value).value
    else FilterBoxes(lib.textContours(img), TextContourShaped)
  }

  /**
   * `_detect_regions`: the detector a mode names, one box covering the image
   * for 'full', and an empty list for every other mode ('manual' and
   * 'target_text' among them). Outside 'full' the result is never a true
   * value: it is empty, or an array whose truth test raises.
   */
  function ModeRegions(lib: Library, img: Image, m: Mode): (r: Regions)
    ensures m == FullImage ==> r == Regions([Box(0, 0, img.w, img.h)], false)
    ensures m in {TargetText, Manual, OtherMode} ==> r == Regions([], false)
    ensures m == FullImage <==> Truth(r) == Some(true)
  {
    match m
    case Face => DetectFaces(lib, img)
    case Eye => DetectEyes(lib, img)
    case Body => DetectFullBody(lib, img)
    case LicensePlate => Regions(FilterBoxes(lib.plateContours(img), PlateShaped), true)
    case TextMode => Regions(TextBoxes(lib, img), true)
    case FullImage => Regions([Box(0, 0, img.w, img.h)], false)
    case _ => Regions([], false)
  }

  /** The method form of `_detect_regions`, which runs the filter loops of the detectors. */
  method DetectRegions(lib: Library, img: Image, m: Mode) returns (r: Regions)
    requires lib.Valid()
    ensures r == ModeRegions(lib, img, m)
  {
    match m
    case Face =>
      r := DetectFaces(lib, img);
    case Eye =>
      r := DetectEyes(lib, img);
    case Body =>
      r := DetectFullBody(lib, img);
    case LicensePlate =>
      r := DetectLicensePlates(lib, img);
    case TextMode =>
      r := DetectText(lib, img);
    case FullImage =>
      r := Regions([Box(0, 0, img.w, img.h)], false);
    case _ =>
      r := Regions([], false);
  }

  // ------------------------------------------------------- one image

  /**
   * Every image the reader hands back is well formed and has pixels:
   * `cv2.imread` gives `None`, never an empty array, for a file it cannot
   * decode.
   */
  ghost predicate Decoder(read: string -> Option<Image>)
  {
    forall p :: read(p).Some? ==> read(p).value.Valid() && !Empty(read(p).value)
  }

  /** One result dictionary; `None` in `regionsProcessed` is a record without that key. */
  datatype Record = Record(
    inputPath: string,
    outputPath: Option<string>,
    success: bool,
    regionsProcessed: Option<nat>,
    error: Option<string>)

  /** The two exceptions `_process_single_image` can raise. */
  datatype Failure =
    | CouldNotLoad(path: string)   // the ValueError it raises when `cv2.imread` gives None
    | AmbiguousTruth               // NumPy's ValueError on `not regions` for a non-empty array

  /** `str(e)` of a failure. */
  function Message(f: Failure): string
  {
    match f
    case CouldNotLoad(path) => LoadError(path)
    case AmbiguousTruth => AmbiguousText
  }

  /** NumPy's message for the truth test of an array of several elements. */
  const AmbiguousText: string := "The truth value of an array with more than one element is ambiguous. Use a.any() or a.all()"
  const LoadPrefix: string := "Could not load image: "

  function LoadError(path: string): string
  {
    LoadPrefix + path
  }

  /** What `_process_single_image` does: write an image and return its record, or raise. */
  datatype Outcome = Written(record: Record, image: Image) | Raised(failure: Failure)

  const OutputPrefix: string := "processed_"
  const OutputSuffix: string := ".jpg"

  /** `os.path.join(output_dir, f"processed_{Path(input_path).stem}.jpg")`. */
  function OutputPath(outputDir: string, inputPath: string): string
  {
    Join(outputDir, OutputPrefix + Stem(inputPath) + OutputSuffix)
  }

  /** The working image after the effect has run on the first `n` regions in turn. */
  function Effected(lib: Library, img: Image, regions: seq<Box>, n: nat, s: BatchSettings): (r: Image)
    requires img.Valid() && lib.Valid() && n <= |regions|
    ensures r.Valid()
    decreases n
  {
    if n == 0 then img
    else BatchEffect(lib, Effected(lib, img, regions, n - 1, s), regions[n - 1], s)
  }

  /**
   * `_process_single_image` once the file has decoded to `img`: the truth
   * test of a non-empty array of boxes raises; otherwise the record is a
   * success under `processed_<stem>.jpg`, and either no region was found
   * and the image is written as it is, or the mode was 'full' and its one
   * region was processed.
   */
  function Decoded(lib: Library, img: Image, path: string, outputDir: string, s: BatchSettings): (o: Outcome)
    requires lib.Valid() && img.Valid()
    ensures o.Raised? <==> Truth(ModeRegions(lib, img, ModeOf(s))).None?
    ensures o.Raised? ==> o.failure == AmbiguousTruth
    ensures o.Written? ==>
      && o.record.inputPath == path && o.record.success && o.record.error == None
      && o.record.outputPath == Some(OutputPath(outputDir, path)) && o.record.regionsProcessed.Some?
    ensures o.Written? && o.record.regionsProcessed == Some(0) ==> o.image == img
    ensures o.Written? && o.record.regionsProcessed != Some(0) ==>
      && ModeOf(s) == FullImage
      && o.record.regionsProcessed == Some(1)
  {
    var regions := ModeRegions(lib, img, ModeOf(s));
    match Truth(regions)
    case None => Raised(AmbiguousTruth)
    case Some(found) =>
      var written := if found then Effected(lib, img, regions.boxes, |regions.boxes|, s) else img;
      Written(Record(path, Some(OutputPath(outputDir, path)), true, Some(|regions.boxes|), None), written)
  }

  /** `_process_single_image`: a file that does not decode raises, a decoded one goes on as `Decoded` says. */
  function Single(lib: Library, read: string -> Option<Image>, path: string, outputDir: string, s: BatchSettings): (o: Outcome)
    requires lib.Valid() && Decoder(read)
    ensures read(path).None? <==> o == Raised(CouldNotLoad(path))
    ensures read(path).Some? ==> o == Decoded(lib, read(path).value, path, outputDir, s)
  {
    match read(path)
    case None => Raised(CouldNotLoad(path))
    case Some(img) => Decoded(lib, img, path, outputDir, s)
  }

  /** Running the effect over one region is applying it once. */
  lemma EffectedOne(lib: Library, img: Image, b: Box, s: BatchSettings)
    requires img.Valid() && lib.Valid()
    ensures Effected(lib, img, [b], 1, s) == BatchEffect(lib, img, b, s)
  {
  }

  /** In 'full' mode the written image is the effect applied once, to the box of the whole image. */
  lemma FullModeImage(lib: Library, img: Image, path: string, outputDir: string, s: BatchSettings)
    requires lib.Valid() && img.Valid() && ModeOf(s) == FullImage
    ensures Decoded(lib, img, path, outputDir, s) == Written(Record(path, Some(OutputPath(outputDir, path)), true, Some(1), None),
      BatchEffect(lib, img, Box(0, 0, img.w, img.h), s))
  {
    EffectedOne(lib, img, Box(0, 0, img.w, img.h), s);
  }

  /**
   * The effect never raises in a batch: 'full' is the only mode whose
   * regions reach it, and its one box is the whole of a decoded image,
   * which has pixels.
   */
  lemma FullBoxNeverRaises(read: string -> Option<Image>, path: string, k: EffectKind)
    requires Decoder(read) && read(path).Some?
    ensures var img := read(path).value; !EffectRaises(img, Box(0, 0, img.w, img.h), k)
  {
    var img := read(path).value;
    assert InBounds(Box(0, 0, img.w, img.h), img.w, img.h);
  }

  /** The effect loop of `_process_single_image`, over the regions in order. */
  method ProcessRegions(lib: Library, img: Image, boxes: seq<Box>, s: BatchSettings) returns (processed: Image)
    requires lib.Valid() && img.Valid()
    ensures processed == Effected(lib, img, boxes, |boxes|, s)
  {
    processed := img;
    for i := 0 to |boxes|
      invariant processed == Effected(lib, img, boxes, i, s)
    {
      processed := ApplyEffectToRegion(lib, processed, boxes[i], s);
    }
  }

  /** The method form of `_process_single_image` after a successful decode. */
  method ProcessDecoded(lib: Library, img: Image, path: string, outputDir: string, s: BatchSettings) returns (o: Outcome)
    requires lib.Valid() && img.Valid()
    ensures o == Decoded(lib, img, path, outputDir, s)
  {
    var regions := DetectRegions(lib, img, ModeOf(s));
    var truth := Truth(regions);
    if truth.None? {
      return Raised(AmbiguousTruth);
    }
    var processed := img;
    if truth.value {
      processed := ProcessRegions(lib, img, regions.boxes, s);
    }
    o := Written(Record(path, Some(OutputPath(outputDir, path)), true, Some(|regions.boxes|), None), processed);
  }

  /** The method form of `_process_single_image`. */
  method ProcessSingleImage(lib: Library, read: string -> Option<Image>, path: string, outputDir: string, s: BatchSettings)
    returns (o: Outcome)
    requires lib.Valid() && Decoder(read)
    ensures o == Single(lib, read, path, outputDir, s)
  {
    var image := read(path);
    if image.None? {
      o := Raised(CouldNotLoad(path));
    } else {
      o := ProcessDecoded(lib, image.value, path, outputDir, s);
    }
  }

  // ----------------------------------------------------------- a batch

  /** The record `process_batch` keeps for an outcome: a raised error becomes a failure record. */
  function RecordOf(path: string, o: Outcome): (r: Record)
    ensures o.Raised? ==> r == Record(path, None, false, None, Some(Message(o.failure)))
    ensures o.Written? ==> r == o.record
  {
    match o
    case Written(record, _) => record
    case Raised(failure) => Record(path, None, false, None, Some(Message(failure)))
  }

  /** One callback invocation of a run. */
  datatype Event = Progress(current: nat, total: nat, result: Record) | Error(path: string, message: string)

  /** What `_process_single_image` does with each of the paths. */
  function Outcomes(lib: Library, read: string -> Option<Image>, paths: seq<string>, outputDir: string, s: BatchSettings): (os: seq<Outcome>)
    requires lib.Valid() && Decoder(read)
    ensures |os| == |paths|
    ensures forall i :: 0 <= i < |paths| ==> os[i] == Single(lib, read, paths[i], outputDir, s)
  {
    seq(|paths|, i requires 0 <= i < |paths| => Single(lib, read, paths[i], outputDir, s))
  }

  /** The records `process_batch` keeps for the first `n` outcomes. */
  function Records(paths: seq<string>, os: seq<Outcome>, n: nat): seq<Record>
    requires n <= |paths| && n <= |os|
    decreases n
  {
    if n == 0 then [] else Records(paths, os, n - 1) + [RecordOf(paths[n - 1], os[n - 1])]
  }

  /** The callback file `i` of `total` triggers: progress on success, error on failure, nothing when that callback is unset. */
  function EventOf(i: nat, total: nat, path: string, o: Outcome, progress: bool, error: bool): seq<Event>
  {
    match o
    case Written(record, _) => if progress then [Progress(i + 1, total, record)] else []
    case Raised(failure) => if error then [Error(path, Message(failure))] else []
  }

  /** The callbacks the first `n` outcomes trigger, in order. */
  function Events(paths: seq<string>, os: seq<Outcome>, n: nat, progress: bool, error: bool): seq<Event>
    requires n <= |paths| && n <= |os|
    decreases n
  {
    if n == 0 then [] else Events(paths, os, n - 1, progress, error) + EventOf(n - 1, |paths|, paths[n - 1], os[n - 1], progress, error)
  }

  /** One record per outcome, in input order, each carrying its own input path. */
  lemma {:induction false} RecordsPerPath(paths: seq<string>, os: seq<Outcome>, n: nat)
    requires n <= |paths| && n <= |os|
    requires forall i :: 0 <= i < n && os[i].Written? ==> os[i].record.inputPath == paths[i]
    ensures |Records(paths, os, n)| == n
    ensures forall i :: 0 <= i < n ==> Records(paths, os, n)[i] == RecordOf(paths[i], os[i]) && Records(paths, os, n)[i].inputPath == paths[i]
    decreases n
  {
    if n > 0 {
      RecordsPerPath(paths, os, n - 1);
    }
  }

  /** The records of a run: one per input path, in input order, as `_process_single_image` decides. */
  lemma ResultsPerPath(lib: Library, read: string -> Option<Image>, paths: seq<string>, outputDir: string, s: BatchSettings)
    requires lib.Valid() && Decoder(read)
    ensures var r := Records(paths, Outcomes(lib, read, paths, outputDir, s), |paths|);
      && |r| == |paths|
      && forall i :: 0 <= i < |paths| ==> r[i] == RecordOf(paths[i], Single(lib, read, paths[i], outputDir, s)) && r[i].inputPath == paths[i]
  {
    RecordsPerPath(paths, Outcomes(lib, read, paths, outputDir, s), |paths|);
  }

  /**
   * With both callbacks set, outcome `i` triggers exactly one call: progress
   * `(i + 1, total, record)` when it was written, error `(path, message)`
   * otherwise.
   */
  lemma {:induction false} OneCallbackPerFile(paths: seq<string>, os: seq<Outcome>, n: nat)
    requires n <= |paths| && n <= |os|
    ensures |Events(paths, os, n, true, true)| == n
    ensures forall i :: 0 <= i < n ==>
      Events(paths, os, n, true, true)[i] ==
        if os[i].Written? then Progress(i + 1, |paths|, os[i].record) else Error(paths[i], Message(os[i].failure))
    decreases n
  {
    if n > 0 {
      OneCallbackPerFile(paths, os, n - 1);
    }
  }

  /** With neither callback set, a run makes no call. */
  lemma {:induction false} NoCallbacks(paths: seq<string>, os: seq<Outcome>, n: nat)
    requires n <= |paths| && n <= |os|
    ensures Events(paths, os, n, false, false) == []
    decreases n
  {
    if n > 0 {
      NoCallbacks(paths, os, n - 1);
    }
  }

  /** The body of the `process_batch` loop for file `i`: the record it keeps and the callback it makes. */
  method Report(i: nat, total: nat, path: string, o: Outcome, progress: bool, error: bool) returns (record: Record, calls: seq<Event>)
    ensures record == RecordOf(path, o)
    ensures calls == EventOf(i, total, path, o, progress, error)
  {
    calls := [];
    if o.Written? {
      record := o.record;
      if progress {
        calls := [Progress(i + 1, total, o.record)];
      }
    } else {
      var message := Message(o.failure);
      record := Record(path, None, false, None, Some(message));
      if error {
        calls := [Error(path, message)];
      }
    }
  }

  /**
   * `BatchProcessor`. `progressCallback` and `errorCallback` record whether
   * the last run was given each callback.
   */
  class Processor {
    const lib: Library
    var results: seq<Record>
    var progressCallback: bool
    var errorCallback: bool

    constructor(lib: Library)
      ensures this.lib == lib && results == [] && !progressCallback && !errorCallback
    {
      this.lib := lib;
      results := [];
      progressCallback := false;
      errorCallback := false;
    }

    /**
     * `process_batch`: the results are reset, then each file in turn yields
     * its record and its callback; the records are returned.
     */
    method ProcessBatch(read: string -> Option<Image>, paths: seq<string>, outputDir: string, s: BatchSettings,
      progress: bool, error: bool) returns (r: seq<Record>, events: seq<Event>)
      requires lib.Valid() && Decoder(read)
      modifies this
      ensures results == Records(paths, Outcomes(lib, read, paths, outputDir, s), |paths|) && r == results
      ensures events == Events(paths, Outcomes(lib, read, paths, outputDir, s), |paths|, progress, error)
      ensures progressCallback == progress && errorCallback == error
    {
      ghost var os := Outcomes(lib, read, paths, outputDir, s);
      results := [];
      progressCallback := progress;
      errorCallback := error;
      var kept: seq<Record> := [];
      events := [];
      for i := 0 to |paths|
        invariant kept == Records(paths, os, i)
        invariant events == Events(paths, os, i, progress, error)
        invariant progressCallback == progress && errorCallback == error
      {
        var o := ProcessSingleImage(lib, read, paths[i], outputDir, s);
        assert o == os[i];
        var record, calls := Report(i, |paths|, paths[i], o, progress, error);
        kept := kept + [record];
        events := events + calls;
      }
      results := kept;
      r := results;
    }
  }

  // ------------------------------------------------------- validation

  /** `list(valid_extensions)`: the elements of a set, each once, in no particular order. */
  method ListOf(s: set<string>) returns (r: seq<string>)
    ensures (set x | x in r) == s
    ensures forall a, b :: 0 <= a < b < |r| ==> r[a] != r[b]
  {
    r := [];
    var rest := s;
    while rest != {}
      invariant rest !! (set x | x in r)
      invariant rest + (set x | x in r) == s
      invariant forall a, b :: 0 <= a < b < |r| ==> r[a] != r[b]
      decreases rest
    {
      var x :| x in rest;
      r := r + [x];
      rest := rest - {x};
    }
  }

  /** `get_supported_formats`: the extensions of the dialog filters. */
  method GetSupportedFormats() returns (exts: seq<string>)
    ensures (set x | x in exts) == Utils.ExtensionSet(Config.SupportedFormats)
    ensures forall a, b :: 0 <= a < b < |exts| ==> exts[a] != exts[b]
  {
    var valid := Utils.ValidExtensions(Config.SupportedFormats);
    exts := ListOf(valid);
  }

  const NotFoundPrefix: string := "File not found: "
  const UnsupportedPrefix: string := "Unsupported format "

  /**
   * Why `validate_input_files` rejects a path, checking existence, then the
   * lowercased suffix, then decoding; `None` for a valid path.
   */
  function Verdict(path: string, exists_: string -> bool, read: string -> Option<Image>, exts: set<string>): (r: Option<string>)
    ensures r.None? <==> exists_(path) && Lower(Suffix(path)) in exts && read(path).Some?
  {
    if !exists_(path) then Some(NotFoundPrefix + path)
    else if Lower(Suffix(path)) !in exts then Some(UnsupportedPrefix + Lower(Suffix(path)) + ": " + path)
    else if read(path).None? then Some(LoadError(path))
    else None
  }

  /** The valid paths and the messages for the invalid ones among the first `n` paths, `verdict` judging each. */
  function Partition(paths: seq<string>, n: nat, verdict: string -> Option<string>): (r: (seq<string>, seq<string>))
    requires n <= |paths|
    decreases n
  {
    if n == 0 then ([], [])
    else
      var prev := Partition(paths, n - 1, verdict);
      var v := verdict(paths[n - 1]);
      if v.None? then (prev.0 + [paths[n - 1]], prev.1) else (prev.0, prev.1 + [v.value])
  }

  /** Each path lands in exactly one of the two lists. */
  lemma {:induction false} PartitionSizes(paths: seq<string>, n: nat, verdict: string -> Option<string>)
    requires n <= |paths|
    ensures |Partition(paths, n, verdict).0| + |Partition(paths, n, verdict).1| == n
    decreases n
  {
    if n > 0 {
      PartitionSizes(paths, n - 1, verdict);
    }
  }

  /** The valid list holds exactly the paths with no objection. */
  lemma {:induction false} PartitionValid(paths: seq<string>, n: nat, verdict: string -> Option<string>)
    requires n <= |paths|
    ensures forall p :: p in Partition(paths, n, verdict).0 <==> p in paths[..n] && verdict(p).None?
    decreases n
  {
    if n > 0 {
      PartitionValid(paths, n - 1, verdict);
      assert paths[..n] == paths[..n - 1] + [paths[n - 1]];
    }
  }

  /** The invalid list holds one objection per rejected path, in input order. */
  lemma {:induction false} PartitionInvalid(paths: seq<string>, n: nat, verdict: string -> Option<string>)
    requires n <= |paths|
    ensures forall m :: m in Partition(paths, n, verdict).1 ==> exists i :: 0 <= i < n && verdict(paths[i]) == Some(m)
    decreases n
  {
    if n > 0 {
      PartitionInvalid(paths, n - 1, verdict);
    }
  }

  /** When every path passes, the valid list is the input itself, in its order. */
  lemma {:induction false} PartitionAllValid(paths: seq<string>, n: nat, verdict: string -> Option<string>)
    requires n <= |paths|
    requires forall i :: 0 <= i < n ==> verdict(paths[i]).None?
    ensures Partition(paths, n, verdict) == (paths[..n], [])
    decreases n
  {
    if n > 0 {
      PartitionAllValid(paths, n - 1, verdict);
      assert paths[..n] == paths[..n - 1] + [paths[n - 1]];
    }
  }

  /** The checks `validate_input_files` makes of one path, in its order. */
  method Judge(path: string, exists_: string -> bool, read: string -> Option<Image>, supported: seq<string>, ghost exts: set<string>)
    returns (v: Option<string>)
    requires (set x | x in supported) == exts
    ensures v == Verdict(path, exists_, read, exts)
  {
    if !exists_(path) {
      return Some(NotFoundPrefix + path);
    }
    var ext := Lower(Suffix(path));
    if ext !in supported {
      assert ext !in exts;
      return Some(UnsupportedPrefix + ext + ": " + path);
    }
    assert ext in exts;
    var img := read(path);
    if img.None? {
      v := Some(LoadError(path));
    } else {
      v := None;
    }
  }

  /** The verdict `validate_input_files` passes on each path, against the extensions of the file-dialog filters. */
  function Check(exists_: string -> bool, read: string -> Option<Image>): string -> Option<string>
  {
    p => Verdict(p, exists_, read, Utils.ExtensionSet(Config.SupportedFormats))
  }

  /** `validate_input_files`. */
  method ValidateInputFiles(paths: seq<string>, exists_: string -> bool, read: string -> Option<Image>)
    returns (valid: seq<string>, invalid: seq<string>)
    ensures (valid, invalid) == Partition(paths, |paths|, Check(exists_, read))
  {
    var supported := GetSupportedFormats();
    ghost var exts := Utils.ExtensionSet(Config.SupportedFormats);
    ghost var verdict := Check(exists_, read);
    valid, invalid := [], [];
    for i := 0 to |paths|
      invariant (valid, invalid) == Partition(paths, i, verdict)
    {
      var v := Judge(paths[i], exists_, read, supported, exts);
      if v.None? {
        valid := valid + [paths[i]];
      } else {
        invalid := invalid + [v.value];
      }
    }
  }
}
