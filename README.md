# DotScramble core, modelled in Dafny

DotScramble is a desktop privacy tool. It finds regions of an image that
should be hidden, such as faces, eyes, bodies, licence plates, text in
general or one target word or phrase. It then covers each region with an
effect: Gaussian blur, pixelation, a black bar, a gradient fade, a mosaic,
frosted glass or an oil painting. It keeps undo and redo history for the
interactive editor, and it can run the same pipeline over a whole batch
of files.

This project models the region pipeline and the state around it. Each
module follows one file of the program:

- `Config` (`config.dfy`): the constant tables, effects, detection modes,
  the two display lists, the presets, the ranges and limits, plus
  `validate_config` and `get_cascade_path`.
- `Utils` (`utils.dfy`): the `HistoryManager` and `PresetManager`
  classes, and the extension set behind `validate_image_path`.
- `Imaging` (`imaging.dfy`): images as values, boxes, OCR records,
  NumPy-style slicing (negative starts wrap, ends clip), and the
  `Library` of foreign kernels.
- `ImageProcessor` (`image_processor.dfy`): the effects and the two box
  filters, license plates and the text fallback.
- `Dispatch` (`dispatch.dfy`): the mode and effect strings, each read once
  into a datatype by the same `if`/`elif` chain the program walks.
- `TextDetector` (`text_detector.dfy`): the targeted word and phrase
  matcher, `_group_nearby_boxes`, `detect_multiple_words`,
  `detect_all_text` and `get_detected_text`.
- `BatchProcessor` (`batch_processor.dfy`): one file at a time and whole
  batches, with their result records and callbacks, plus
  `validate_input_files` and `get_supported_formats`.
- `Editor` (`main_window.dfy`): the main window's image, regions and
  history.
- `BatchUi` (`batch_window.dfy`): the batch window's file list and its
  progress counters.
- `Picker` (`image_picker.dfy`): the image picker's directory listing and
  navigation.
- `PyText`, `PyPath` and `PyDict` (`pytext.dfy`, `pypath.dfy`,
  `pydict.dfy`): the parts of Python's `str`, `os.path` and insertion-ordered
  `dict` that the program relies on, each with its own lemmas.
- `Wrappers` (`wrappers.dfy`): `Option`.

Whatever the program changes in place is a class. `HistoryManager`,
`PresetManager`, `Processor`, `MainWindow`, `BatchWindow` and
`ImagePicker` each keep their fields, and each method has a `modifies`
clause. Every such method is proved against a specification function.
For example, `ProcessBatch` leaves `results == Records(paths, Outcomes(...), |paths|)`
and returns the callback sequence `Events(...)`. The lemmas beside those
functions state what the program promises: one result per path in input
order, one callback per file, boxes clamped to the image, groups that
partition the matches, and so on.

The loops of the program appear as methods with loop invariants:
- the mosaic fill;
- the gradient channel loop;
- the OCR match loop;
- the grouping loops;
- the batch loop;
- validation;
- the batch window's deduplicating add and its reverse-order delete;
- the picker's listing.

Several things the program takes from its surroundings are parameters:
- Files are read through `read: string -> Option<Image>`, which stands for
  `cv2.imread` returning an array or `None`.
- The file system is reached only through `exists_`, `isDir` and
  `listDir`.
- Dialog answers are booleans or optional paths.
- The conversion from canvas to image coordinates is `toImage`.
- The foreign kernels are fields of `Imaging.Library`:
  - the OpenCV and PIL filters;
  - the Haar cascades, Canny, contours and `addWeighted` blending;
  - Tesseract.

  `Library.Valid()` only says that each kernel keeps the shape of the
  region it is given. Nothing is assumed about the pixel values these
  kernels compute.

## Model

| member | source | states |
|---|---|---|
| Config.ValidateConfig | config.py:440-464 | each of the four fixed messages is in the result exactly when its check fails; every directory that does not exist is reported under its name and path; nothing else is reported; the list is empty exactly when the configuration is sound |
| Config.FixedChecks | config.py:444-457 | the blur-order, blur-odd, size-limit and history messages appear exactly when their checks fail, and the list is empty exactly when all four pass |
| Config.MissingDirs | config.py:459-462 | one message for each directory that does not exist, none for any other, and an empty list exactly when all directories exist |
| Config.MissingDirErrorDistinct | config.py:446-462 | a missing-directory message differs from each of the four fixed messages |
| Config.ShippedConfigOk | config.py:440-464 | the shipped constants pass every check once the directories exist |
| Config.GetCascadePath | config.py:467-478 | an unknown mode has no cascade path |
| Config.CascadeKnown | config.py:467-478 | a path comes back exactly for a listed mode whose entry names a cascade file |
| Config.DetectionModesDistinct | config.py:166-209 | no detection mode is listed twice |
| Config.HaarCascadePaths | config.py:467-478 | face, eye and body resolve to the OpenCV cascade directory followed by the file their entry names |
| Config.DefaultsWithinRanges | config.py:72-98 | every default lies within its range and the blur default is odd |
| Config.EffectListMatchesEffects | config.py:103-161 | the GUI effect list names the effect keys in table order, each label starting with that effect's icon |
| Config.DetectionListMatchesModes | config.py:166-222 | the GUI detection list names the mode keys in table order, each label starting with that mode's icon |
| Config.PresetEffectsKnown | config.py:286-327 | every preset names a known effect |
| Config.PresetModesKnown | config.py:286-327 | every preset names a known detection mode |
| Utils.Saved | core/utils.py:23-29 | below the bound the image is appended; at the bound the oldest state is dropped and the image appended; the history never grows past the bound |
| Utils.SavedEvictsOldest | core/utils.py:26-28 | with a full history, saving drops exactly the oldest state, keeps the length at the bound and puts the image last |
| Utils.HistoryManager.constructor | core/utils.py:18-21 | both lists start empty with the given bound |
| Utils.HistoryManager.SaveState | core/utils.py:23-29 | a real image is saved as `Saved` says and the redo stack is emptied; `None` changes nothing |
| Utils.HistoryManager.Undo | core/utils.py:31-35 | the newest state is popped and returned, `None` on an empty history; the redo stack is untouched |
| Utils.HistoryManager.Redo | core/utils.py:37-41 | the newest redo state is popped and returned, `None` on an empty stack; the history is untouched |
| Utils.HistoryManager.AddToRedo | core/utils.py:43-46 | a real image is pushed on the redo stack, without a bound; the history is untouched |
| Utils.HistoryManager.CanUndo | core/utils.py:48-50 | true exactly when the history is not empty |
| Utils.HistoryManager.CanRedo | core/utils.py:52-54 | true exactly when the redo stack is not empty |
| Utils.HistoryManager.Clear | core/utils.py:56-59 | both lists end empty |
| Utils.SaveThenUndo | core/utils.py:23-35 | saving an image and then undoing returns that image and leaves nothing to redo, with any bound of at least 1 |
| Utils.PresetManager.constructor | core/utils.py:65-77 | the table is what was loaded, or empty when nothing could be read |
| Utils.PresetManager.AddPreset | core/utils.py:88-91 | the name is inserted or overwritten in place, as a dictionary assignment does |
| Utils.PresetManager.DeletePreset | core/utils.py:93-99 | true exactly when the name was present, and then only that entry is removed; otherwise nothing changes |
| Utils.PresetManager.GetPreset | core/utils.py:101-103 | `None` exactly for an absent name; otherwise the settings stored under it |
| Utils.PresetManager.GetAllPresets | core/utils.py:105-107 | the names in insertion order, one per entry |
| Utils.AddThenDelete | core/utils.py:88-103 | a preset just added reads back; deleting it succeeds and leaves it absent; other names read as before |
| Utils.ValidExtensions | core/utils.py:252-257 | the loop builds exactly the extension set of the filter list |
| Utils.ExtensionSet | core/utils.py:252-257 | the union over the filters of each pattern string without `*`, split on whitespace; there is no contract, and `Utils.ExtensionSetHas` states it |
| Utils.ValidateImagePath | core/utils.py:249-260 | true exactly when the lowercased extension is a supported one and the path exists |
| Utils.ExtensionSetHas | core/utils.py:253-257 | every filter with a pattern string contributes all of its extensions |
| Utils.JpegFilterExtensions | config.py:229 | the JPEG filter contributes `.jpg` and `.jpeg` |
| Utils.TiffFilterExtensions | config.py:232 | the TIFF filter contributes `.tiff` and `.tif` |
| Utils.AllFilesExtension | config.py:234 | the all-files filter contributes the extension `.` |
| BatchProcessor.DefaultsParse | core/batch_processor.py:82-83 | a settings dictionary without keys selects face detection and the blur effect |
| BatchProcessor.BatchEffect | core/batch_processor.py:141-162 | an unknown effect returns the image unchanged; a known effect returns an image shaped like the region, which replaces the working image |
| BatchProcessor.ApplyEffectToRegion | core/batch_processor.py:141-162 | the method computes `BatchEffect`, running the gradient and mosaic loops |
| BatchProcessor.FullImageEffect | core/batch_processor.py:105-137 | on the box of the whole image, a known effect keeps the image's shape |
| BatchProcessor.ModeRegions | core/batch_processor.py:123-139 | 'full' yields the one box covering the image; 'target_text', 'manual' and unknown modes yield an empty list; the result is truthy exactly in 'full' mode |
| BatchProcessor.DetectRegions | core/batch_processor.py:123-139 | the method computes `ModeRegions`, running the detectors' filter loops |
| BatchProcessor.Effected | core/batch_processor.py:103-108 | the working image after the effect has run on the first `n` regions is well formed |
| BatchProcessor.Decoded | core/batch_processor.py:82-121 | the truth test raises exactly when the detector returns a non-empty array; otherwise a success is recorded under `processed_<stem>.jpg`, with the image unchanged when no region was found and the effect applied otherwise |
| BatchProcessor.Single | core/batch_processor.py:74-79 | a file that cannot be read raises "Could not load image"; a decoded one proceeds as `Decoded` says |
| BatchProcessor.EffectedOne | core/batch_processor.py:105-108 | running the effect loop over one region applies the effect once |
| BatchProcessor.FullModeImage | core/batch_processor.py:103-137 | in 'full' mode the image written is the effect applied once to the whole-image box, and the record counts one region |
| BatchProcessor.FullBoxNeverRaises | core/batch_processor.py:103-108 | on the whole-image box of a decoded image no effect raises, because a decoded image has pixels |
| BatchProcessor.OutputPath | core/batch_processor.py:110-111 | `os.path.join(output_dir, f"processed_{stem}.jpg")`; there is no contract |
| BatchProcessor.TextBoxes | core/image_processor.py:195-225 | the OCR path's boxes, or the contour fallback's when OCR or an `int()` raises; there is no contract, and `ImageProcessor.DetectText` states it |
| BatchProcessor.ProcessRegions | core/batch_processor.py:103-108 | the loop applies the effect to each region in order |
| BatchProcessor.ProcessDecoded | core/batch_processor.py:82-121 | the method computes `Decoded` |
| BatchProcessor.ProcessSingleImage | core/batch_processor.py:74-121 | the method computes `Single` |
| BatchProcessor.RecordOf | core/batch_processor.py:54-67 | a raised error becomes a failure record carrying its message and no output path; a written outcome keeps its record |
| BatchProcessor.Outcomes | core/batch_processor.py:52-54 | one outcome per input path, each decided by `Single` |
| BatchProcessor.RecordsPerPath | core/batch_processor.py:52-72 | one record per outcome, in input order, each carrying its own input path |
| BatchProcessor.ResultsPerPath | core/batch_processor.py:27-72 | a run keeps one record per input path, in input order, as `_process_single_image` decides |
| BatchProcessor.OneCallbackPerFile | core/batch_processor.py:57-70 | with both callbacks set, each file triggers exactly one call: progress `(i + 1, total, record)` on success, error `(path, message)` on failure |
| BatchProcessor.NoCallbacks | core/batch_processor.py:57-69 | with neither callback set, a run makes no call |
| BatchProcessor.Report | core/batch_processor.py:53-70 | one loop step keeps the record of its outcome and makes that outcome's callback |
| BatchProcessor.Processor.constructor | core/batch_processor.py:20-25 | no results and no callbacks |
| BatchProcessor.Processor.ProcessBatch | core/batch_processor.py:27-72 | results are reset, then hold one record per file in order; the calls made are the run's callbacks in order; the callback flags are the ones given |
| BatchProcessor.ListOf | core/batch_processor.py:186 | the elements of the set, each exactly once |
| BatchProcessor.GetSupportedFormats | core/batch_processor.py:176-186 | exactly the extensions of the dialog filters, each once |
| BatchProcessor.Verdict | core/batch_processor.py:194-210 | a path is accepted exactly when it exists, its lowercased suffix is supported and it decodes |
| BatchProcessor.PartitionSizes | core/batch_processor.py:190-214 | every path goes into exactly one of the two lists |
| BatchProcessor.PartitionValid | core/batch_processor.py:190-214 | the valid list holds exactly the paths with no objection |
| BatchProcessor.PartitionInvalid | core/batch_processor.py:190-214 | every invalid-list message is the objection raised against some input path |
| BatchProcessor.PartitionAllValid | core/batch_processor.py:190-214 | when every path passes, the valid list is the input in its order and the invalid list is empty |
| BatchProcessor.Judge | core/batch_processor.py:195-210 | the three checks run in order and give `Verdict` |
| BatchProcessor.ValidateInputFiles | core/batch_processor.py:188-214 | the two lists are the partition of the paths by the verdict |
| ImageProcessor.Region | core/image_processor.py:15 | `image[y:y+h, x:x+w]` under Python's slice rules; inside the image it is the `h`-by-`w` block starting at `(y, x)` |
| ImageProcessor.BlurKernel | core/image_processor.py:13-14 | the kernel side is odd and is the strength itself or one more than it |
| ImageProcessor.BlurKernelIdempotent | core/image_processor.py:13-14 | rounding an odd strength changes nothing, and rounding twice is rounding once |
| ImageProcessor.GaussianBlur | core/image_processor.py:11-17 | the blurred region has the shape of the region |
| ImageProcessor.PixelStep | core/image_processor.py:24 | `max(1, pixel_size)`: at least 1, and the pixel size itself when that is positive |
| ImageProcessor.PixelDim | core/image_processor.py:26-27 | the reduced side is at least 1 and never larger than a non-empty side |
| ImageProcessor.PixelDimFloor | core/image_processor.py:26-27 | the reduced side is the floor of side over step: that many steps fit and one more does not, unless the side is shorter than one step |
| ImageProcessor.Pixelate | core/image_processor.py:20-31 | the pixelated region has the shape of the region |
| ImageProcessor.FillRect | core/image_processor.py:37 | a filled rectangle includes both corners and is clipped to the image; every other pixel is kept |
| ImageProcessor.BlackBar | core/image_processor.py:34-38 | the result has the shape of the region |
| ImageProcessor.BlackBarIsBlack | core/image_processor.py:34-38 | for a box with a non-negative corner and non-negative sides, every pixel of the result is black, and inside the image it is an all-black `h`-by-`w` image. A box at negative coordinates is excluded because its slice wraps to the far edge, where `cv2.rectangle` draws nothing |
| ImageProcessor.Plane | core/image_processor.py:54-55 | `region[:, :, c]` holds channel `c` of every pixel |
| ImageProcessor.WithPlane | core/image_processor.py:54 | assigning channel `c` sets that channel everywhere and keeps the other two |
| ImageProcessor.Saturate | core/image_processor.py:54-56 | OpenCV's saturating cast to a byte: values below 0 become 0, values above 255 become 255, the rest are kept |
| ImageProcessor.AddWeighted | core/image_processor.py:54-56 | each element is the saturated weighted sum of the operands, and the shape is that of the first operand |
| ImageProcessor.AddWeightedUnit | core/image_processor.py:54-56 | with weights 1 and 0 and no offset the blend returns its first operand |
| ImageProcessor.WithOwnPlane | core/image_processor.py:53-56 | writing a channel back unchanged changes nothing |
| ImageProcessor.GradientFade | core/image_processor.py:41-58 | the channel loop gives back a copy of the region unchanged, because the blurred image is weighted 0 |
| ImageProcessor.FrostedGlass | core/image_processor.py:77-91 | the result has the shape of the region |
| ImageProcessor.OilPaint | core/image_processor.py:94-105 | the result has the shape of the region |
| ImageProcessor.TileStart | core/image_processor.py:67-68 | the tile start of an index is a multiple of the tile size, at most one tile before the index |
| ImageProcessor.TileStartOf | core/image_processor.py:67-69 | every index from a tile start up to the next one belongs to that tile |
| ImageProcessor.TileAt | core/image_processor.py:67-69 | the tile holding a pixel starts on multiples of the tile size, lies inside the region and is clipped to it |
| ImageProcessor.ChannelMeanFloor | core/image_processor.py:71 | a tile's mean is truncated: the largest value that, multiplied by the tile's pixel count, does not exceed the sum |
| ImageProcessor.MosaicOf | core/image_processor.py:61-74 | the result has the region's shape and each pixel is the truncated mean colour of its tile |
| ImageProcessor.FilledUpTo | core/image_processor.py:66-72 | the partly processed copy keeps the region's shape |
| ImageProcessor.FilledNothing | core/image_processor.py:66 | before the loops the copy is the region |
| ImageProcessor.FillTileStep | core/image_processor.py:69-72 | filling one tile with its mean advances the loops by one tile |
| ImageProcessor.FillTileInside | core/image_processor.py:72 | a pixel of the tile takes the tile's mean |
| ImageProcessor.FillTileOutside | core/image_processor.py:72 | a pixel outside the tile keeps its value |
| ImageProcessor.BandDone | core/image_processor.py:68 | once the column loop passes the right edge, the whole band of rows is done |
| ImageProcessor.FilledAll | core/image_processor.py:67 | once the row loop passes the bottom edge, the copy is the mosaic |
| ImageProcessor.Mosaic | core/image_processor.py:61-74 | `mosaic_effect` yields the mosaic of the region |
| ImageProcessor.FillTile | core/image_processor.py:69-72 | one pass of the inner loop body advances the filled prefix by one tile |
| ImageProcessor.MosaicRegion | core/image_processor.py:66-74 | the two tile loops over a copy of the region yield its mosaic |
| ImageProcessor.ChannelMeanConst | core/image_processor.py:71 | a window whose channel is constant has that value as its mean |
| ImageProcessor.TileMeanConst | core/image_processor.py:71 | a tile of one colour has that colour as its mean |
| ImageProcessor.MosaicOfConstant | core/image_processor.py:61-74 | a region of one colour comes out of the mosaic unchanged |
| ImageProcessor.MosaicTileUniform | core/image_processor.py:67-72 | after the mosaic, each tile has one colour throughout: its mean in the region |
| ImageProcessor.MosaicIdempotent | core/image_processor.py:61-74 | applying the mosaic twice is the same as applying it once |
| ImageProcessor.ApplyOpacity | core/image_processor.py:135-138 | the blend has the shape of the processed region |
| ImageProcessor.CascadeRegions | core/image_processor.py:145-172 | the boxes are the cascade's; the result is an array exactly when it holds a box, and an empty tuple otherwise |
| ImageProcessor.DetectFaces | core/image_processor.py:145-152 | the frontal-face cascade's boxes; there is no contract, and `ImageProcessor.CascadeRegions` states it |
| ImageProcessor.DetectEyes | core/image_processor.py:155-162 | the eye cascade's boxes; there is no contract, and `ImageProcessor.CascadeRegions` states it |
| ImageProcessor.DetectFullBody | core/image_processor.py:165-172 | the full-body cascade's boxes; there is no contract, and `ImageProcessor.CascadeRegions` states it |
| ImageProcessor.PlateShaped | core/image_processor.py:186-190 | the plate test `2 <= w/h <= 5 and w > 80 and h > 20`, in integers for a positive height; `ImageProcessor.PlateShapedBounds` states its bounds |
| ImageProcessor.PlateShapedBounds | core/image_processor.py:186-189 | a plate-shaped box is at least 81 wide and 21 high, and wider than it is high |
| ImageProcessor.FilterPlates | core/image_processor.py:183-190 | the loop keeps exactly the plate-shaped rectangles, in contour order |
| ImageProcessor.DetectLicensePlates | core/image_processor.py:175-192 | always an array; a box is in it exactly when it bounds a contour and is plate-shaped |
| ImageProcessor.OcrBoxes | core/image_processor.py:203-212 | `None` exactly when some confidence is not an integer, which makes `int()` raise; otherwise a box is kept exactly when its entry's confidence is over 30 and both sides are over 10 |
| ImageProcessor.OcrKept | core/image_processor.py:207-210 | the OCR-path test `int(conf) > 30 and w > 10 and h > 10`; there is no contract |
| ImageProcessor.DetectText | core/image_processor.py:195-225 | always an array: the OCR path's boxes, or the fallback contour filter's when the OCR path raises |
| ImageProcessor.OcrBoxesNonePrefix | core/image_processor.py:206-207 | once an unreadable confidence occurs, the whole OCR path raises |
| ImageProcessor.FilterText | core/image_processor.py:219-223 | the fallback loop keeps exactly the contours strictly between 10 and 200 wide and between 10 and 100 high, in order |
| ImageProcessor.TextContourShaped | core/image_processor.py:221-223 | the fallback test `10 < w < 200 and 10 < h < 100`; there is no contract |
| Imaging.PyIndex | core/image_processor.py:15 | a slice bound normalises as in Python: negative bounds count from the end and everything is clipped to `[0, n]` |
| Imaging.SliceWindow | core/image_processor.py:15 | the pixels selected by `img[y:y+h, x:x+w]` lie in the image, and for an in-bounds box they are exactly the box |
| Imaging.Crop | core/image_processor.py:15 | a crop holds exactly the window's pixels |
| Imaging.Paste | gui/main_window.py:654 | slice assignment writes the window from the region and keeps every other pixel |
| Imaging.PasteOwnCrop | gui/main_window.py:654 | writing a window back with its own pixels changes nothing |
| Imaging.CropOfPaste | gui/main_window.py:654 | reading back a window just written gives what was written |
| Imaging.Truth | core/batch_processor.py:89 | `not regions`: a non-empty NumPy array raises; otherwise the value is true exactly when there is a box |
| Imaging.FilterBoxes | core/image_processor.py:184-190 | the boxes that pass the test, in their order |
| Editor.WriteBack | gui/main_window.py:626-654 | `None` exactly when the effect raises: the box selects no pixel and the effect is blur, pixelation, gradient, glass or oil paint. Otherwise the result keeps the working image's shape and every pixel outside the box, and an unknown effect changes nothing |
| Editor.WrittenRegion | gui/main_window.py:628-654 | when the write happens, reading the box back gives the effect's region at full opacity, and below 100 its blend with the ORIGINAL image's region |
| Editor.GradientKeepsImage | gui/main_window.py:638-654 | at full opacity the gradient effect leaves the working image exactly as it was, and it raises on a box that selects no pixel |
| Editor.BlackBarBlackensBox | gui/main_window.py:636-654 | at full opacity, for a box with a non-negative corner and non-negative sides, the black bar never raises, and every pixel of the box that lies in the image becomes black |
| Editor.LeftOfImageWraps | gui/main_window.py:627-654 | on a 100-by-100 image the box (-30,0,20,20) addresses columns 70 to 89: negative slice bounds count from the right edge |
| Editor.Painted | gui/main_window.py:580-624 | the run over the boxes in turn keeps the image's shape; the first effect that raises ends the run, and earlier writes are kept |
| Editor.Step | gui/main_window.py:615-616 | one box of the loop keeps the image's shape; nothing more happens once an effect has raised, and otherwise the box raises exactly when its effect rejects the region it selects |
| Editor.StepOutside | gui/main_window.py:626-654 | over one box, a pixel outside that box keeps its value, whether the box raised or was written back |
| Editor.RaiseEndsRun | gui/main_window.py:580-624 | once an effect has raised, the later boxes change nothing |
| Editor.RaisedIff | gui/main_window.py:615-624 | a run raises exactly when some box, reached with nothing raised before it, selects no pixel for an effect that rejects that |
| Editor.RaisedHasWitness | gui/main_window.py:615-624 | a run that raised names the box whose effect raised, and no box before it raised |
| Editor.WitnessRaises | gui/main_window.py:615-624 | once a box's effect has raised, every longer run over the same boxes ends raised |
| Editor.NonRejectingNeverRaises | gui/main_window.py:626-647 | the black bar, the mosaic and an unknown effect never end a run early |
| Editor.PaintedOutside | gui/main_window.py:615-654 | a pixel outside every box of the run keeps its value |
| Editor.UnknownEffectPaintsNothing | gui/main_window.py:646-647 | with an unknown effect the run leaves the image as it is |
| Editor.Targets | gui/main_window.py:575-612 | 'full' gives one whole-image box; 'manual' gives the drawn rectangles, or stops when there are none; 'target_text' stops for an empty word and when nothing is found, and otherwise gives in-bounds boxes larger than 5 by 5; the detector modes give the detectors' boxes; any other mode stops |
| Editor.FindTargets | gui/main_window.py:581-612 | the method computes `Targets`, running the detectors' loops |
| Editor.Processed | gui/main_window.py:566-624 | the result keeps the working image's shape. It is unchanged and not failed when the dispatch stops early; otherwise it is the run over the dispatched boxes, failed exactly when an effect raised |
| Editor.OffImageBoxEndsRun | gui/main_window.py:603-624 | on a 100-pixel-wide image, blurring the manual boxes (120,0,20,20) then (0,0,20,20) fails on the first box, and the second is never written |
| Editor.Normalise | gui/main_window.py:753-754 | the rectangle spans from the smaller to the larger of each pair of corner coordinates, with non-negative sides |
| Editor.NormaliseSymmetric | gui/main_window.py:753-754 | the rectangle does not depend on the direction of the drag |
| Editor.MainWindow.constructor | gui/main_window.py:24-66 | no image, no path, no drawn rectangles, no drag in progress, and an empty history bounded by `MAX_HISTORY` |
| Editor.MainWindow.LoadImage | gui/main_window.py:501-534 | a cancelled pick changes nothing; otherwise the path is kept; a file that does not decode leaves no original; one that decodes becomes both the original and the working image, and the rectangles and both stacks are cleared |
| Editor.MainWindow.ApplyEffectToRegion | gui/main_window.py:626-654 | only the working image changes: it becomes `WriteBack` of the box, or stays as it was when the effect raises, which is reported |
| Editor.MainWindow.PaintBoxes | gui/main_window.py:615-616 | applies the effect box by box and stops at the first box that raises; the working image and the failure flag end as `Painted` over all the boxes, and the original, the path and the drawn rectangles are untouched |
| Editor.MainWindow.ProcessImage | gui/main_window.py:566-624 | nothing happens without an original. Otherwise the working image is saved to the history first, which empties the redo stack even when the dispatch then stops early. The working image becomes `Processed`, ending at the first effect that raises, and "Processing failed" is reported exactly when one did |
| Editor.MainWindow.Undo | gui/main_window.py:790-798 | with an empty history nothing changes; otherwise the newest state becomes the working image and the previous working image goes onto the redo stack |
| Editor.MainWindow.Redo | gui/main_window.py:800-808 | with an empty redo stack nothing changes; otherwise the newest redo state becomes the working image and the previous one is saved to the history, which empties the redo stack |
| Editor.MainWindow.ClearRegions | gui/main_window.py:810-816 | the drawn rectangles are forgotten and nothing else changes |
| Editor.MainWindow.ResetImage | gui/main_window.py:818-826 | with an original, it becomes the working image again and the rectangles and history are cleared; without one, nothing changes |
| Editor.MainWindow.MouseDown | gui/main_window.py:728-733 | a drag starts at the mouse position exactly in 'manual' mode with an image loaded |
| Editor.MainWindow.MouseUp | gui/main_window.py:744-757 | a drag in progress ends, and its normalised rectangle is appended exactly when it is wider and taller than 10 pixels |
| Editor.SavedConforms | gui/main_window.py:573 | saving a conforming image onto a conforming history keeps every state of the original's shape |
| Editor.UndoThenRedo | gui/main_window.py:790-808 | undo then redo restores the working image and the history, but leaves the redo stack empty |
| TextDetector.Fold | core/text_detector.py:96-143 | the text is kept as is when the search is case-sensitive and lower-cased otherwise; either way its length is kept |
| TextDetector.PartMatches | core/text_detector.py:157-171 | one step of the multi-word loop; `TextDetector.PartMatchesNonExact` and `TextDetector.EqualPartMatches` state it |
| TextDetector.WordMatches | core/text_detector.py:145-171 | equality or substring for a one-word target, some part matching otherwise; there is no contract |
| TextDetector.PartMatchesNonExact | core/text_detector.py:163-171 | in partial mode a phrase part matches exactly when one string is a prefix of the other and the word is at most twice the part's length; the `elif` adds nothing |
| TextDetector.EqualPartMatches | core/text_detector.py:157-171 | a word equal to a part matches it in either mode |
| TextDetector.SomePartMatchesIff | core/text_detector.py:157-171 | the phrase loop matches exactly when some part matches |
| TextDetector.ExactImpliesPartial | core/text_detector.py:148-171 | every exact-mode match is also a partial-mode match |
| TextDetector.EqualWordMatches | core/text_detector.py:148-171 | a word equal to the single target, or to one part of a phrase, matches in either mode |
| TextDetector.MatchesSomePart | core/text_detector.py:157-171 | the loop with its `break` finds a match exactly when some part matches |
| TextDetector.Prepare | core/text_detector.py:95-100 | the options are kept, and a target with a visible character yields at least one word |
| TextDetector.StripFoldNotBlank | core/text_detector.py:69-100 | a target that passes the blank check still has a word after stripping and case folding |
| TextDetector.Records | core/text_detector.py:125-136 | the records of the selected entries that have an integer confidence, in OCR order |
| TextDetector.Accepts | core/text_detector.py:127-171 | the tests an entry passes to become a match: non-blank text, an integer confidence of at least the threshold, and a matching word; `TextDetector.MatchedIff` states it |
| TextDetector.Matched | core/text_detector.py:125-185 | at most one match per OCR entry |
| TextDetector.MatchedIff | core/text_detector.py:125-185 | a match is exactly the record of an entry that is non-blank, has an integer confidence of at least the threshold, and matches |
| TextDetector.ThresholdInclusive | core/text_detector.py:139-140 | a matching entry whose confidence equals the threshold is kept |
| TextDetector.SkippedEntries | core/text_detector.py:129-140 | an entry with blank text, a non-integer confidence or a confidence under the threshold contributes no match |
| TextDetector.MatchEntries | core/text_detector.py:125-185 | the loop collects exactly `Matched` |
| TextDetector.MatchEntry | core/text_detector.py:127-173 | one pass of the loop accepts the entry exactly when `Accepts` holds |
| TextDetector.Clamp | core/text_detector.py:197-209 | the clamped box starts at non-negative coordinates, and a box larger than 5 by 5 lies inside the image |
| TextDetector.ClampInterior | core/text_detector.py:197-209 | away from the image's edges, clamping only adds the padding on every side |
| TextDetector.PadEach | core/text_detector.py:193-212 | every region lies inside the image and is larger than 5 by 5; a box is a region exactly when it is some match padded by 8, clamped, and large enough |
| TextDetector.Insert | core/text_detector.py:237 | insertion adds exactly the new record |
| TextDetector.InsertSorted | core/text_detector.py:237 | inserting into a sorted list keeps it sorted by `(y, x)` |
| TextDetector.SortByPosition | core/text_detector.py:237 | the sort is a permutation |
| TextDetector.SortByPositionSorted | core/text_detector.py:237 | the sort orders records by `(y, x)` |
| TextDetector.JoinersIff | core/text_detector.py:251-269 | a box joins a group exactly when no earlier group took it, it is not the seed, and it is on the seed's line within 150 pixels of the seed's right edge |
| TextDetector.Joins | core/text_detector.py:258-267 | the join test `abs(y1-y2) <= max(h1,h2) and abs(x2-(x1+w1)) < 150`; `TextDetector.JoinersIff` states it |
| TextDetector.GroupsUpTo | core/text_detector.py:239-269 | the groups formed so far hold only valid indices, at most one group per seed visited |
| TextDetector.Minimum | core/text_detector.py:278-279 | `min` is an element and no element is smaller |
| TextDetector.Maximum | core/text_detector.py:280-281 | `max` is an element and no element is larger |
| TextDetector.UnionContains | core/text_detector.py:273-281 | the union box contains every member box |
| TextDetector.UnionTight | core/text_detector.py:273-281 | each edge of the union box is some member's edge |
| TextDetector.GroupRegions | core/text_detector.py:271-298 | every region lies inside the image and is larger than 5 by 5, at most one per group |
| TextDetector.GroupNearby | core/text_detector.py:221-300 | at most one region per match, each inside the image and larger than 5 by 5 |
| TextDetector.JoinersUnused | core/text_detector.py:243-253 | a new group takes only indices that no earlier group used |
| TextDetector.CoveredIff | core/text_detector.py:240-269 | an index is covered exactly when some group holds it |
| TextDetector.DisjointApart | core/text_detector.py:252 | in disjoint groups, an index in an earlier group is in no later one |
| TextDetector.PartitionExtend | core/text_detector.py:247-269 | adding a group of unused indices keeps the groups a partition of `used` |
| TextDetector.GroupsPartition | core/text_detector.py:239-269 | `used` is the union of the groups, and no index is in two groups |
| TextDetector.NewGroupPartitioned | core/text_detector.py:246-269 | the group grown from an unused seed keeps the groups a partition |
| TextDetector.GroupsCover | core/text_detector.py:242-248 | every seed visited is used, by its own group or by an earlier one |
| TextDetector.EachBoxInOneGroup | core/text_detector.py:239-269 | each sorted box lies in exactly one group |
| TextDetector.SeedGroup | core/text_detector.py:242-269 | an unused seed starts a new group led by itself, and another box joins that group exactly when the joining test holds |
| TextDetector.RemindMeGroups | core/text_detector.py:221-269 | the two words of the "Remind Me" example form one group |
| TextDetector.RemindMe | core/text_detector.py:221-300 | "Remind" at (10, 10, 50, 20) and "Me" at (65, 10, 30, 20) merge into (0, 0, 105, 40) in a large image |
| TextDetector.RemindMeSorted | core/text_detector.py:237 | the two example words are already in reading order |
| TextDetector.RemindMeRegions | core/text_detector.py:271-298 | the example's one group, padded by 10 and clamped, is (0, 0, 105, 40) |
| TextDetector.JoinStep | core/text_detector.py:251-269 | one inner-loop pass adds box `j` exactly when it is unused, not the seed, and close to the seed |
| TextDetector.GrowGroup | core/text_detector.py:247-269 | the inner loop grows exactly the seed followed by its joiners, and marks them used |
| TextDetector.GroupNearbyBoxes | core/text_detector.py:221-300 | the method computes `GroupNearby` |
| TextDetector.GroupBoxes | core/text_detector.py:239-300 | the outer loop yields the regions of the groups `GroupsUpTo` describes |
| TextDetector.Visit | core/text_detector.py:242-298 | one outer-loop pass moves the grouping state from seed `i` to seed `i + 1` |
| TextDetector.UsedSeedSkipped | core/text_detector.py:243-244 | a seed that an earlier group took starts no group |
| TextDetector.GrowFrom | core/text_detector.py:246-298 | an unused seed's group is grown, and its box is kept when large enough |
| TextDetector.SpecificWord | core/text_detector.py:39-219 | without Tesseract, without an image or with a blank target the result is empty; every region lies inside the image and is larger than 5 by 5 |
| TextDetector.PadMatches | core/text_detector.py:193-212 | the single-word loop yields `PadEach` |
| TextDetector.DetectSpecificWord | core/text_detector.py:39-219 | the method computes `SpecificWord` |
| TextDetector.ReportsStep | core/text_detector.py:316-319 | one pass of the loop keeps the result dictionary exact for the words seen so far |
| TextDetector.DetectMultipleWords | core/text_detector.py:302-321 | keys are distinct; each entry is a word of the list with the non-empty regions `detect_specific_word` finds for it; every word found at least once has an entry |
| TextDetector.AllTextBoxes | core/text_detector.py:353-376 | a box is kept exactly when some non-blank entry with an integer confidence strictly over the threshold has it and it is wider and taller than 10 |
| TextDetector.DetectedWords | core/text_detector.py:434-460 | at most one record per entry |
| TextDetector.ThresholdExclusive | core/text_detector.py:367 | an entry whose confidence equals the threshold is dropped |
| TextDetector.DetectAllText | core/text_detector.py:323-376 | empty without Tesseract or without an image, and empty when the OCR call fails; otherwise `AllTextBoxes` of the OCR entries |
| TextDetector.GetDetectedText | core/text_detector.py:405-460 | empty without Tesseract or without an image, and empty when the OCR call fails; otherwise `DetectedWords` of the OCR entries |
| BatchUi.Labels | gui/batch_window.py:303-323 | one listbox line per file, in order: the file icon followed by the file's name |
| BatchUi.Appended | gui/batch_window.py:300-324 | the old list stays as a prefix, at most one entry is added per file offered, the list holds exactly the old entries and the offered files, and no duplicate is introduced |
| BatchUi.AppendedPresent | gui/batch_window.py:301-321 | files that are all in the list already add nothing |
| BatchUi.AddTwiceAddsNothing | gui/batch_window.py:300-304 | offering the same files a second time adds nothing |
| BatchUi.AppendedExtend | gui/batch_window.py:300-304 | offering more files later does not change what the earlier offers did |
| BatchUi.AppendedStep | gui/batch_window.py:301-302 | one more offer appends the file unless it is already in the list |
| BatchUi.ImageFilesMembers | gui/batch_window.py:315-319 | exactly the listing entries with an accepted suffix are offered, at most one per entry |
| BatchUi.KeptAgree | gui/batch_window.py:341-342 | the kept entries depend only on the dropped positions from the starting point on |
| BatchUi.KeptStretch | gui/batch_window.py:341-342 | a stretch without dropped positions is kept whole |
| BatchUi.KeptMembers | gui/batch_window.py:341-342 | every position outside the dropped set survives, and nothing else does |
| BatchUi.DropBelow | gui/batch_window.py:341-342 | deleting a position below all positions already dropped gives the list without both |
| BatchUi.Received | gui/batch_window.py:436-466 | progress sets the current index only while processing; an error always adds one failure |
| BatchUi.Delivered | gui/batch_window.py:429-466 | the counters after the callbacks in order, with a stop just before one of them; there is no contract, and `BatchUi.FailuresCounted` states it |
| BatchUi.FailuresCounted | gui/batch_window.py:464-466 | whenever the user stops, the failure count grows by one per error callback |
| BatchUi.StopLeavesFailures | gui/batch_window.py:429-466 | stopping never changes the failure count |
| BatchUi.EveryFileCounted | core/batch_processor.py:52-70 | every file is either a success or a failure |
| BatchUi.CallbacksOfRun | gui/batch_window.py:415-421 | with both callbacks set, a run makes one callback per file, and one error callback per failure |
| BatchUi.CallbackPerFile | core/batch_processor.py:57-70 | with both callbacks set, a run makes one callback per file |
| BatchUi.ErrorPerFailure | core/batch_processor.py:60-70 | with both callbacks set, the number of error callbacks is the number of failures |
| BatchUi.OneEventEach | core/batch_processor.py:57-70 | each outcome triggers one callback, an error callback exactly for a failure |
| BatchUi.ReportedSuccessMiscounts | gui/batch_window.py:436-477 | a success followed by a failure is reported as 0 successes, and one failed file as -1 |
| BatchUi.ReportedSuccess | gui/batch_window.py:477 | the count as written, `current_progress - failed_count`; there is no contract, and `BatchUi.ReportedSuccessMiscounts` shows it is wrong |
| BatchUi.SuccessCountCorrect | gui/batch_window.py:464-482 | the files less the failures is the number of files processed successfully, however early the user stopped |
| BatchUi.BatchWindow.constructor | gui/batch_window.py:27-52 | no files, not processing, counters zero |
| BatchUi.BatchWindow.AddFiles | gui/batch_window.py:291-308 | each chosen file not yet in the list is appended in the order chosen; the count is the number appended; the counters are untouched |
| BatchUi.BatchWindow.AddFolder | gui/batch_window.py:310-330 | a cancelled dialog changes nothing; otherwise each entry with one of the six suffixes, in any case, is offered as `add_files` offers a file |
| BatchUi.BatchWindow.OfferImages | gui/batch_window.py:318-324 | the loop offers exactly the accepted entries, in listing order |
| BatchUi.BatchWindow.OfferAt | gui/batch_window.py:319-324 | one pass offers entry `i` when its suffix is accepted |
| BatchUi.BatchWindow.OfferNext | gui/batch_window.py:321-324 | the next offer extends the run's offers by one file |
| BatchUi.BatchWindow.Offer | gui/batch_window.py:301-304 | the file is appended exactly when it is not in the list already |
| BatchUi.BatchWindow.RemoveSelected | gui/batch_window.py:332-346 | deleting from the last selected position to the first removes exactly the selected positions and leaves the other files in order |
| BatchUi.BatchWindow.DeleteAt | gui/batch_window.py:342-343 | one deletion removes the next selected position and keeps the listbox in step |
| BatchUi.BatchWindow.ClearAll | gui/batch_window.py:348-357 | a non-empty list is emptied exactly when the user confirms |
| BatchUi.BatchWindow.StartProcessing | gui/batch_window.py:365-409 | nothing starts without files, without an output folder, or when the user declines to go on past invalid files; otherwise the valid files and the settings go to the worker and the counters are reset |
| BatchUi.BatchWindow.Begin | gui/batch_window.py:403-406 | processing is on, the total is the count, and both counters are zero |
| BatchUi.BatchWindow.StopProcessing | gui/batch_window.py:429-434 | once confirmed only the processing flag is cleared; the counters stay |
| BatchUi.BatchWindow.OnProgress | gui/batch_window.py:436-441 | after a stop, progress is ignored; otherwise the current index is recorded |
| BatchUi.BatchWindow.OnError | gui/batch_window.py:464-466 | one more failure, whether stopped or not |
| BatchUi.BatchWindow.Deliver | gui/batch_window.py:415-434 | the counters after the run's callbacks delivered in order, with a stop before one of them |
| BatchUi.BatchWindow.OnComplete | gui/batch_window.py:472-482 | the run is over; the reported count is the corrected one from "## Findings": the number of files less the failures. The count as written at line 477 is `BatchUi.ReportedSuccess` |
| BatchUi.BatchWindow.Worker | gui/batch_window.py:411-424 | the batch runs to its end, and the processor keeps one record per file. The window reports the corrected count from "## Findings", which is exactly the files processed successfully |
| Picker.Load | core/image_picker.py:131-138 | nothing is shown when the path does not exist or cannot be listed; otherwise the rows are the listing of the sorted names |
| Picker.Listing | core/image_picker.py:147-165 | the parent row, then the folder rows, then the picture rows; there is no contract, and `Picker.ParentRowFirst` and `Picker.FoldersBeforeFiles` state it |
| Picker.RowsMembers | core/image_picker.py:156-165 | an insertion loop adds at most one row per name, all of its own kind, and a row exactly for each name the test accepts |
| Picker.RowsSorted | core/image_picker.py:135-165 | rows inserted over sorted names come out with sorted texts |
| Picker.Texts | core/image_picker.py:151-165 | the texts of the rows, in order |
| Picker.FoldersBeforeFiles | core/image_picker.py:147-165 | after the optional parent row, every folder row comes before every picture row |
| Picker.FolderRowsAreVisibleDirectories | core/image_picker.py:135-159 | the folder rows are sorted, and a name has one exactly when it does not start with '.' and names a directory |
| Picker.PictureRowsAreImageNames | core/image_picker.py:135-165 | the picture rows are sorted, and a name has one exactly when its lowercased form ends in one of the six picture extensions |
| Picker.PictureNamedDirectoryListedTwice | core/image_picker.py:156-165 | a visible directory whose name ends in a picture extension is listed both as a folder and as a picture |
| Picker.ParentRowFirst | core/image_picker.py:147-151 | the first row is the parent-directory row leading to `dirname(path)` exactly when the path has a parent |
| Picker.RootHasNoParent | core/image_picker.py:148-149 | '/' and a bare name have no parent, and '/home' has the parent '/' |
| Picker.ImagePicker.constructor | core/image_picker.py:9-12 | nothing selected, the home directory current, an empty tree and no window |
| Picker.ImagePicker.Open | core/image_picker.py:14-129 | an existing initial directory becomes the start folder, a window opens, and the tree shows that folder's listing, or nothing when the folder cannot be loaded |
| Picker.ImagePicker.LoadFolder | core/image_picker.py:131-165 | nothing changes when the path is missing or cannot be listed; otherwise the path becomes current and the tree is exactly its listing |
| Picker.ImagePicker.Show | core/image_picker.py:140-165 | the tree becomes exactly the listing of the sorted names, and the path becomes current |
| Picker.ImagePicker.Clear | core/image_picker.py:141-142 | the loop deletes every row |
| Picker.ImagePicker.Insert | core/image_picker.py:156-165 | one insertion loop appends exactly the rows of the accepted names |
| Picker.ImagePicker.GoUp | core/image_picker.py:223-226 | the parent folder is loaded when there is one; otherwise nothing changes |
| Picker.ImagePicker.Activate | core/image_picker.py:197-221 | with nothing selected nothing changes; a selected picture becomes the answer and the window closes; a selected folder is loaded |
| Picker.ImagePicker.EnterPath | core/image_picker.py:228-231 | a typed path that is a directory and can be listed is loaded; otherwise nothing changes |
| Picker.GoUpFromRoot | core/image_picker.py:223-226 | going up from '/' leaves the browser where it is |
| PyText.Strip | core/text_detector.py:69 | the stripped text is no longer than the input and neither starts nor ends with whitespace |
| PyText.StripEmptyIffAllSpace | core/text_detector.py:69 | `strip()` is empty exactly when the text is all whitespace |
| PyText.Words | core/text_detector.py:100 | `split()` yields the whitespace-separated words |
| PyText.WordsNonEmpty | core/text_detector.py:100 | `split()` of a text with a visible character yields at least one word |
| PyText.Remove | core/utils.py:256 | `replace('*', '')` removes every star and keeps the rest in order |
| PyText.RemoveAppend | core/utils.py:256 | removing a character distributes over concatenation |
| PyText.Lower | core/text_detector.py:97-143 | `lower()` keeps the length and folds each character |
| PyText.StrLessIrreflexive | core/image_picker.py:135 | no string sorts before itself |
| PyText.StrLessTotal | core/image_picker.py:135 | of two different strings, one sorts before the other |
| PyText.StrLessTransitive | core/image_picker.py:135 | string order is transitive |
| PyText.StrLessAsymmetric | core/image_picker.py:135 | string order is asymmetric |
| PyText.InsertString | core/image_picker.py:135 | insertion adds exactly the new name |
| PyText.InsertStringSorted | core/image_picker.py:135 | inserting into a sorted list keeps it sorted |
| PyText.SortStrings | core/image_picker.py:135 | `sorted(os.listdir(path))` is a permutation of the names |
| PyText.SortStringsSorted | core/image_picker.py:135 | `sorted` orders the names |
| PyText.StrLessPrefix | core/image_picker.py:159-165 | a common icon prefix does not change the order of two row texts |
| PyPath.RFind | core/image_picker.py:148 | the last index of the character, or -1 when it is absent |
| PyPath.Dirname | core/image_picker.py:148 | `os.path.dirname` is a prefix of the path |
| PyPath.Basename | gui/batch_window.py:303 | `os.path.basename` is the slash-free tail of the path |
| PyPath.SplitExt | core/utils.py:259 | `splitext` gives an empty extension or one that starts with '.' |
| PyPath.Suffix | core/batch_processor.py:199 | `Path.suffix` is empty or a dot followed by at least one character |
| PyPath.Stem | core/batch_processor.py:91-111 | the name is the stem followed by the suffix |
| PyPath.NameOfJoined | gui/batch_window.py:318-323 | the name of `folder/n` is `n` |
| PyPath.StemOfNameWithExtension | core/batch_processor.py:91-111 | `photo.png` in any folder has stem `photo` and suffix `.png` |
| PyPath.TrailingDotExtension | core/utils.py:259 | `splitext` of a name ending in a dot reports the extension `.` |
| PyDict.Keys | core/utils.py:107 | the keys in insertion order |
| PyDict.Lookup | config.py:473 | `get` is `None` exactly for an absent key, and otherwise the value of an entry with that key |
| PyDict.LookupAt | config.py:473 | `get` finds the first entry with the key |
| PyDict.PutSpec | core/utils.py:90 | after `d[key] = value` the key maps to the value, keys stay distinct, and every other entry is kept |
| PyDict.LookupPut | core/utils.py:90 | after `d[key] = value` the key reads back as the value, and every other key reads as before |
| PyDict.KeysPut | core/utils.py:90-107 | overwriting keeps the key order, and a new key goes last |
| PyDict.KeyAbsent | config.py:470 | a key carried by no entry is not among the keys |
| PyDict.DeletedWere | core/utils.py:96 | deleting adds no entry |
| PyDict.DeleteSpec | core/utils.py:95-96 | after `del d[key]` the key is gone, keys stay distinct, every other key reads as before, and a present key removes exactly one entry |
| Dispatch.ParseMode | core/batch_processor.py:125-139 | the mode chain recognises exactly its eight names, and 'full', 'manual' and 'target_text' exactly by their names |
| Dispatch.ParseEffect | core/batch_processor.py:144-162 | the effect chain recognises exactly its seven names |
| Dispatch.Effect | core/batch_processor.py:144-162 | an unknown effect has no result; every known effect yields a region of the box's shape; the gradient gives back the region itself, and the black bar is `black_bar` |
| Dispatch.RunEffect | core/batch_processor.py:144-162 | the method computes `Effect`, running the gradient and mosaic loops |
| Dispatch.FullRegion | core/batch_processor.py:136-137 | a box the size of the whole image selects all of it |
| Dispatch.EffectNamesAreEffectKeys | core/batch_processor.py:144-160 | the effect chain tests exactly the keys of `EFFECTS`, in table order |
| Dispatch.ModeNamesAreModeKeys | gui/main_window.py:582-608 | the mode chain tests the keys of `DETECTION_MODES` in table order, with 'target_text' between 'text' and 'manual' |
| Dispatch.TargetTextNotAKey | gui/main_window.py:592 | 'target_text' is not a key of `DETECTION_MODES` |

## Left out

- Pixel kernels of OpenCV and PIL, and Tesseract's `image_to_data`. These are foreign code, so they are fields of `Imaging.Library`. The model promises only that each kernel keeps the region's shape. Whether a kernel raises is not left to the library. Each effect kernel raises exactly on an empty region (`Dispatch.EffectRaises`), because OpenCV asserts a non-empty input. On a region with pixels no kernel raises, and neither do `addWeighted` and the detectors. The kernels are:
  - `GaussianBlur` and `resize`;
  - the bilateral filter and `xphoto.oilPainting`;
  - PIL blur, brightness and edge enhance;
  - Canny and `findContours`;
  - `detectMultiScale`.
- ImageProcessor.GaussianBlur: states only that the blurred region has the region's shape. The pixels come from OpenCV. The odd-kernel rounding it passes on is proved separately, in `BlurKernel`.
- ImageProcessor.Pixelate: states only the shape of the result. The two resizes are OpenCV's. The intermediate sizes are proved in `PixelDim` and `PixelDimFloor`.
- ImageProcessor.FrostedGlass: states only the shape of the result, because PIL computes the pixels.
- ImageProcessor.OilPaint: states only the shape of the result, because OpenCV's `xphoto` computes the pixels.
- ImageProcessor.ApplyOpacity: states only the shape of the blend. The `addWeighted` blend uses floating-point weights. The model keeps the decision of when blending happens (opacity below 100) and which image it blends against (the original).
- Config.GetCascadePath: its own contract covers only the unknown-mode case. `Config.CascadeKnown` and `Config.HaarCascadePaths` state the rest.
- PyText.Lower: folds ASCII letters only. Python's `str.lower` folds all of Unicode.
- `emoji_cover`: it renders a font, so it is not modelled. No dispatch chain reaches it.
- Floating point: the display scale, `resize_for_display` and zoom, and the progress percentage. Canvas-to-image coordinates arrive through the `toImage` parameter of `Editor.MainWindow.MouseUp`.
- Threading:
  - The batch window's worker thread and `process_batch_async` are modelled as a sequential call (`BatchUi.BatchWindow.Worker`).
  - Callbacks scheduled with `after` are delivered in order.
  - `stopAt` is the callback before which the user stops the run.
- File output: `cv2.imwrite` is not modelled. The written image is carried as a value inside each `Written` outcome.
- Other file and directory I/O:
  - the `mkdir` calls made when `config` is imported;
  - `create_backup`;
  - `ExportManager`;
  - loading and saving presets as JSON. `Utils.PresetManager.constructor` takes the already-loaded table, or `None` when there is no file.
- Reading files: `cv2.imread` is the `read` parameter. In the batch it is taken to give `None` or an image with pixels, never an empty array (`BatchProcessor.Decoder`). So in the batch no effect ever raises (`BatchProcessor.FullBoxNeverRaises`), and no failure record comes from an effect. `os.path.exists`, `isdir` and `listdir` are parameters too.
- BatchProcessor.Judge: the `except` at core/batch_processor.py:211-212, for a read that raises, is not modelled. `read` is total and gives `None` for a file it cannot decode.
- BatchProcessor.Report: the two callbacks are taken never to raise. A callback that raised inside the `try` at core/batch_processor.py:57-58 would add a second record for the same file and fire the error callback.
- Imaging.Truth: an empty NumPy array tests false, as in NumPy before 2.2. From 2.2 on, that truth test raises too. No NumPy version is pinned, and under 2.2 or later every license-plate or text batch would fail even when nothing is found.
- `validate_config`'s warnings printed at import time, and all logging. This includes the debug loop over the OCR output in `detect_specific_word`: it prints and changes nothing.
- `TextDetector.__init__` configures the Tesseract command path. `is_tesseract_installed` probes for the binary. Both are I/O, so the editor takes Tesseract's presence as a boolean.
- `detect_word_in_image` is not modelled. It is a module-level convenience wrapper around `detect_specific_word`.
- Tk widgets and layout, menus, shortcuts and dialogs:
  - Confirmation boxes become boolean parameters, and file dialogs become optional paths.
  - Status and count labels, `update_ui_state`, `update_file_count` and the time label are not modelled.
  - In the picker, `on_select` and its thumbnail preview are not modelled.
  - `on_close` is not modelled.
- Picker: `open` runs `wait_window`, an event loop. In the model, `Open` sets up the dialog and the result is the `selectedPath` field. `on_double_click` and `confirm_selection` share one branch, so both are modelled by `Picker.ImagePicker.Activate`.
- `failed_count` is first assigned in `start_processing`. The model initialises it in `BatchUi.BatchWindow.constructor` as well. `on_error` cannot run before a start.
- Mosaic: the tile size is fixed at 10, the default and the only value any caller passes.
- Not modelled at all: `core/auto_updater.py`, `build.py`, `build_local.py` and `main.py`. They are network, build and start-up code.
- The model follows the code where the program's design description says otherwise:
  - Phrase grouping compares the boxes' top edges (`|y1−y2|`), not their vertical centres.
  - The batch output is always `processed_<stem>.jpg`.
  - Pixelation floors the intermediate size.
  - `process_batch` never polls a cancellation flag. `stop_processing` only mutes the window's progress handler, as `BatchUi.StopLeavesFailures` shows.
  - The editor's `redo` re-saves the current state, and that clears the redo stack (`Editor.UndoThenRedo`).
  - The batch path never applies opacity.
  - A manual rectangle at negative coordinates is not clipped. Its slice bounds count from the far edge (`Editor.LeftOfImageWraps`), or it selects nothing and the effect raises.
- Extension lists that differ between files are kept as written. The picker shows `.webp` but not `.gif`. `add_folder` accepts `.gif` but not `.webp`. A directory whose name ends in an image suffix is listed twice by the picker (`Picker.PictureNamedDirectoryListedTwice`).

## Findings

| source | as written | input that shows it | evidently intended | confidence | as-written member | corrected member |
|---|---|---|---|---|---|---|
| gui/batch_window.py:477 | the completion message reports `current_progress - failed_count` successes. `current_progress` is the position of the last file that succeeded, and failures never advance it, so a failure is subtracted even though it was never counted | two files, the first succeeds and the second fails: reported 0, actual 1; one file that fails: reported -1 | the number of files that succeeded, `total_files - failed_count` | medium, not executed | BatchUi.ReportedSuccessMiscounts | BatchUi.SuccessCountCorrect, BatchUi.BatchWindow.OnComplete |
