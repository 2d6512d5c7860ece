/**
 * The undo/redo history, the in-memory preset table, and the extension
 * check applied to image paths.
 */
module Utils {
  import opened Wrappers
  import opened Imaging
  import opened PyText
  import opened PyDict
  import opened PyPath
  import Config

  // ----------------------------------------------------------------- history

  /**
   * The history after `append(image)` and, when it then holds more than
   * `maxHistory` states, `pop(0)`.
   */
  function Saved(history: seq<Image>, image: Image, maxHistory: int): (r: seq<Image>)
    ensures |history| < maxHistory ==> r == history + [image]
    ensures |history| >= maxHistory && history != [] ==> r == history[1..] + [image]
    ensures |history| >= maxHistory && history == [] ==> r == []
    ensures |history| <= Max(maxHistory, 0) ==> |r| <= Max(maxHistory, 0)
  {
    var h := history + [image];
    if |h| > maxHistory then h[1..] else h
  }

  /** With a full history, saving evicts exactly the oldest state and keeps the newest last. */
  lemma SavedEvictsOldest(history: seq<Image>, image: Image, maxHistory: int)
    requires 1 <= maxHistory == |history|
    ensures Saved(history, image, maxHistory) == history[1..] + [image]
    ensures |Saved(history, image, maxHistory)| == maxHistory
    ensures Saved(history, image, maxHistory)[maxHistory - 1] == image
  {
  }

  /** `HistoryManager`: a bounded undo list, oldest first, and an unbounded redo stack. */
  class HistoryManager {
    var history: seq<Image>
    var redoStack: seq<Image>
    const maxHistory: int

    /** The bound holds: never more than `max(maxHistory, 0)` undo states. */
    ghost predicate Valid()
      reads this
    {
      |history| <= Max(maxHistory, 0)
    }

    constructor(maxHistory: int)
      ensures Valid()
      ensures history == [] && redoStack == [] && this.maxHistory == maxHistory
    {
      history := [];
      redoStack := [];
      this.maxHistory := maxHistory;
    }

    /** `save_state`: record a copy of a real image and forget everything that could be redone. */
    method SaveState(image: Option<Image>)
      requires Valid()
      modifies this
      ensures Valid()
      ensures image.Some? ==> history == Saved(old(history), image.value, maxHistory) && redoStack == []
      ensures image.None? ==> history == old(history) && redoStack == old(redoStack)
    {
      if image.Some? {
        history := history + [image.value];
        if |history| > maxHistory {
          history := history[1..];
        }
        redoStack := [];
      }
    }

    /** `undo`: pop and return the most recent state, or `None` when there is none. */
    method Undo() returns (r: Option<Image>)
      requires Valid()
      modifies this
      ensures Valid()
      ensures old(history) == [] ==> r == None && history == []
      ensures old(history) != [] ==> r == Some(old(history)[|old(history)| - 1]) && history == old(history)[..|old(history)| - 1]
      ensures redoStack == old(redoStack)
    {
      if |history| > 0 {
        r := Some(history[|history| - 1]);
        history := history[..|history| - 1];
      } else {
        r := None;
      }
    }

    /** `redo`: pop and return the most recently undone state, or `None`. */
    method Redo() returns (r: Option<Image>)
      requires Valid()
      modifies this
      ensures Valid()
      ensures old(redoStack) == [] ==> r == None && redoStack == []
      ensures old(redoStack) != [] ==> r == Some(old(redoStack)[|old(redoStack)| - 1]) && redoStack == old(redoStack)[..|old(redoStack)| - 1]
      ensures history == old(history)
    {
      if |redoStack| > 0 {
        r := Some(redoStack[|redoStack| - 1]);
        redoStack := redoStack[..|redoStack| - 1];
      } else {
        r := None;
      }
    }

    /** `add_to_redo`: push a copy of a real image; no bound applies. */
    method AddToRedo(image: Option<Image>)
      requires Valid()
      modifies this
      ensures Valid()
      ensures image.Some? ==> redoStack == old(redoStack) + [image.value]
      ensures image.None? ==> redoStack == old(redoStack)
      ensures history == old(history)
    {
      if image.Some? {
        redoStack := redoStack + [image.value];
      }
    }

    function CanUndo(): (b: bool)
      reads this
      ensures b <==> |history| > 0
    {
      |history| > 0
    }

    function CanRedo(): (b: bool)
      reads this
      ensures b <==> |redoStack| > 0
    {
      |redoStack| > 0
    }

    /** `clear`: both lists emptied. */
    method Clear()
      modifies this
      ensures Valid()
      ensures history == [] && redoStack == []
    {
      history := [];
      redoStack := [];
    }
  }

  /** Saving and then undoing hands back the image just saved, whatever the bound (when it is at least 1). */
  method SaveThenUndo(h: HistoryManager, image: Image) returns (r: Option<Image>)
    requires h.Valid() && h.maxHistory >= 1
    modifies h
    ensures r == Some(image)
    ensures h.redoStack == []
  {
    h.SaveState(Some(image));
    r := h.Undo();
  }

  // ----------------------------------------------------------------- presets

  /** The settings `save_preset` stores under a name. */
  datatype PresetSettings = PresetSettings(effectType: string, detectionMode: string, blurStrength: int, pixelSize: int, opacity: int)

  /** `PresetManager` without its file: the table of named presets, in insertion order. */
  class PresetManager {
    var presets: seq<(string, PresetSettings)>

    ghost predicate Valid()
      reads this
    {
      DistinctKeys(presets)
    }

    /** `__init__`: `loaded` is what `load_presets` read, `None` when the file is missing or unreadable. */
    constructor(loaded: Option<seq<(string, PresetSettings)>>)
      requires loaded.Some? ==> DistinctKeys(loaded.value)
      ensures Valid()
      ensures presets == if loaded.Some? then loaded.value else []
    {
      presets := if loaded.Some? then loaded.value else [];
    }

    /** `add_preset`: insert or overwrite `name`. */
    method AddPreset(name: string, settings: PresetSettings)
      requires Valid()
      modifies this
      ensures Valid()
      ensures presets == Put(old(presets), name, settings)
    {
      PutSpec(presets, name, settings);
      presets := Put(presets, name, settings);
    }

    /** `delete_preset`: remove `name` and report whether it was there. */
    method DeletePreset(name: string) returns (deleted: bool)
      requires Valid()
      modifies this
      ensures Valid()
      ensures deleted <==> name in Keys(old(presets))
      ensures presets == if deleted then Delete(old(presets), name) else old(presets)
    {
      if name in Keys(presets) {
        DeleteSpec(presets, name, name);
        presets := Delete(presets, name);
        deleted := true;
      } else {
        deleted := false;
      }
    }

    /** `get_preset`: the settings stored under `name`, or `None`. */
    function GetPreset(name: string): (r: Option<PresetSettings>)
      reads this
      ensures r.None? <==> name !in Keys(presets)
      ensures r.Some? ==> (name, r.value) in presets
    {
      Lookup(presets, name)
    }

    /** `get_all_presets`: the names, in insertion order. */
    function GetAllPresets(): (names: seq<string>)
      reads this
      ensures |names| == |presets|
      ensures forall i :: 0 <= i < |presets| ==> names[i] == presets[i].0
    {
      Keys(presets)
    }
  }

  /** A preset just added reads back, and deleting it leaves it absent while other names read as before. */
  method AddThenDelete(m: PresetManager, name: string, settings: PresetSettings, other: string)
    returns (got: Option<PresetSettings>, deleted: bool, gone: Option<PresetSettings>)
    requires m.Valid()
    modifies m
    ensures got == Some(settings) && deleted && gone == None
    ensures other != name ==> m.GetPreset(other) == old(m.GetPreset(other))
  {
    LookupPut(m.presets, name, settings, other);
    m.AddPreset(name, settings);
    got := m.GetPreset(name);
    DeleteSpec(m.presets, name, other);
    deleted := m.DeletePreset(name);
    gone := m.GetPreset(name);
  }

  // -------------------------------------------------------------- extensions

  function WordSet(ws: seq<string>): set<string>
  {
    set w | w in ws
  }

  /** The extensions the filter list names: each pattern string without its `*`, split on whitespace. */
  function ExtensionSet(formats: seq<(string, string)>): (exts: set<string>)
    decreases |formats|
  {
    if |formats| == 0 then {}
    else
      var f := formats[|formats| - 1];
      ExtensionSet(formats[..|formats| - 1]) + (if f.1 != [] then WordSet(Words(Remove(f.1, '*'))) else {})
  }

  /** The valid-extension set `validate_image_path` builds, one filter at a time. */
  method ValidExtensions(formats: seq<(string, string)>) returns (exts: set<string>)
    ensures exts == ExtensionSet(formats)
  {
    exts := {};
    var i := 0;
    while i < |formats|
      invariant 0 <= i <= |formats|
      invariant exts == ExtensionSet(formats[..i])
    {
      var f := formats[i];
      assert formats[..i + 1][..i] == formats[..i];
      if f.1 != [] {
        var patterns := Words(Remove(f.1, '*'));
        exts := exts + WordSet(patterns);
      }
      i := i + 1;
    }
    assert formats[..|formats|] == formats;
  }

  /** `validate_image_path`: the lowercased extension is a supported one and the file exists. */
  method ValidateImagePath(path: string, exists_: string -> bool) returns (ok: bool)
    ensures ok <==> Lower(SplitExt(path)) in ExtensionSet(Config.SupportedFormats) && exists_(path)
  {
    var validExtensions := ValidExtensions(Config.SupportedFormats);
    var ext := Lower(SplitExt(path));
    ok := ext in validExtensions && exists_(path);
  }

  /** Each filter with a pattern string contributes its extensions. */
  lemma {:induction false} ExtensionSetHas(formats: seq<(string, string)>, k: nat)
    requires k < |formats| && formats[k].1 != []
    ensures WordSet(Words(Remove(formats[k].1, '*'))) <= ExtensionSet(formats)
    decreases |formats|
  {
    if k < |formats| - 1 {
      ExtensionSetHas(formats[..|formats| - 1], k);
    }
  }

  predicate PlainToken(e: string)
  {
    e != [] && '*' !in e && forall i :: 0 <= i < |e| ==> !IsSpace(e[i])
  }

  /** `*e` alone, without its star and split: `[e]`. */
  lemma StarToken(e: string)
    requires PlainToken(e)
    ensures Words(Remove("*" + e, '*')) == [e]
  {
    RemoveAppend("*", e, '*');
    RemoveAppend(e, [], '*');
    assert Remove("*", '*') == [];
    assert e + [] == e;
    assert Remove("*" + e, '*') == e;
    WordsOfToken(e, []);
  }

  /** `*e rest`, without its stars and split: `e`, then the words of `rest`. */
  lemma StarHead(e: string, rest: string)
    requires PlainToken(e)
    ensures Words(Remove("*" + e + " " + rest, '*')) == [e] + Words(Remove(rest, '*'))
  {
    var tail := Remove(rest, '*');
    assert "*" + e + " " + rest == "*" + (e + (" " + rest));
    RemoveAppend("*", e + (" " + rest), '*');
    RemoveAppend(e, " " + rest, '*');
    RemoveAppend(" ", rest, '*');
    assert Remove("*" + e + " " + rest, '*') == e + (" " + tail);
    WordsOfToken(e, " " + tail);
    WordsSkipSpace(" " + tail);
    assert (" " + tail)[1..] == tail;
  }

  /** `*e1 *e2`, without its stars and split: `[e1, e2]`. */
  lemma StarTokens(e1: string, e2: string)
    requires PlainToken(e1) && PlainToken(e2)
    ensures Words(Remove("*" + e1 + " " + ("*" + e2), '*')) == [e1, e2]
  {
    StarHead(e1, "*" + e2);
    StarToken(e2);
  }

  /** The JPEG filter contributes `.jpg` and `.jpeg`. */
  lemma JpegFilterExtensions()
    ensures Config.SupportedFormats[1].1 != []
    ensures Words(Remove(Config.SupportedFormats[1].1, '*')) == [".jpg", ".jpeg"]
  {
    assert Config.SupportedFormats[1].1 == "*" + ".jpg" + " " + ("*" + ".jpeg");
    StarTokens(".jpg", ".jpeg");
  }

  /** The TIFF filter contributes `.tif` as well as `.tiff`; the first filter names only `.tiff`. */
  lemma TiffFilterExtensions()
    ensures Config.SupportedFormats[4].1 != []
    ensures Words(Remove(Config.SupportedFormats[4].1, '*')) == [".tiff", ".tif"]
  {
    assert Config.SupportedFormats[4].1 == "*" + ".tiff" + " " + ("*" + ".tif");
    StarTokens(".tiff", ".tif");
  }

  /** The `*.*` filter contributes the extension `.`, which `splitext` reports for a name ending in a dot. */
  lemma AllFilesExtension()
    ensures Config.SupportedFormats[6].1 != []
    ensures Words(Remove(Config.SupportedFormats[6].1, '*')) == ["."]
  {
    var pattern := Config.SupportedFormats[6].1;
    assert pattern == "*.*";
    assert Remove("*", '*') == [] by { assert "*"[1..] == []; }
    assert Remove(".*", '*') == "." by { assert ".*"[1..] == "*"; }
    assert Remove("*.*", '*') == "." by { assert "*.*"[1..] == ".*"; }
    WordsOfToken(".", []);
    assert "." + [] == ".";
  }
}
