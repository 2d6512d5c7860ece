/**
 * The in-app file browser: `load_folder` turns a directory listing into the
 * rows of a tree (a parent row, then the folders, then the pictures), `go_up`
 * climbs one level, and activating a row either opens its folder or picks
 * its file. The file system is a parameter: which paths exist, which are
 * directories, and what `os.listdir` gives for a path (`None` when it raises
 * `PermissionError`).
 */
module Picker {
  import opened Wrappers
  import opened PyText
  import opened PyPath

  datatype FileSystem = FileSystem(exists_: string -> bool, isDir: string -> bool, listDir: string -> Option<seq<string>>)

  /** The row type stored in a row's `values`. */
  datatype Kind = Dir | File

  /** One tree row: its text and the `(full_path, kind)` pair kept in its `values`. */
  datatype Row = Row(text: string, path: string, kind: Kind)

  const ParentText := "\U{1F4C1} .. (Parent Directory)"
  const FolderIcon := "\U{1F4C1} "
  const PictureIcon := "\U{1F5BC}\U{FE0F} "

  /** The suffixes the file rows are chosen by; '.gif' is not among them and '.webp' is. */
  const PictureExtensions: seq<string> := [".jpg", ".jpeg", ".png", ".bmp", ".webp", ".tiff"]

  /** A parent row is shown when `dirname(path)` is non-empty and not `path` itself. */
  predicate HasParent(path: string)
  {
    Dirname(path) != "" && Dirname(path) != path
  }

  function ParentRows(path: string): (r: seq<Row>)
  {
    if HasParent(path) then [Row(ParentText, Dirname(path), Dir)] else []
  }

  /** The folder loop's test: not hidden, and a directory. */
  predicate IsFolder(fs: FileSystem, path: string, item: string)
  {
    !StartsWith(item, ".") && fs.isDir(Join(path, item))
  }

  function FolderTest(fs: FileSystem, path: string): string -> bool
  {
    item => IsFolder(fs, path, item)
  }

  /** The file loop's test: the lower-cased name ends with a picture suffix. */
  predicate IsPicture(item: string)
  {
    EndsWithAny(Lower(item), PictureExtensions)
  }

  function RowOf(path: string, icon: string, kind: Kind, item: string): Row
  {
    Row(icon + item, Join(path, item), kind)
  }

  /** The rows one insertion loop adds for the first `n` items, those `keep` accepts. */
  function Rows(path: string, items: seq<string>, keep: string -> bool, icon: string, kind: Kind, n: nat): seq<Row>
    requires n <= |items|
    decreases n
  {
    if n == 0 then []
    else
      Rows(path, items, keep, icon, kind, n - 1)
      + (if keep(items[n - 1]) then [RowOf(path, icon, kind, items[n - 1])] else [])
  }

  function FolderRows(fs: FileSystem, path: string, items: seq<string>): seq<Row>
  {
    Rows(path, items, FolderTest(fs, path), FolderIcon, Dir, |items|)
  }

  function PictureRows(path: string, items: seq<string>): seq<Row>
  {
    Rows(path, items, IsPicture, PictureIcon, File, |items|)
  }

  /** The tree `load_folder` builds for `path` from its sorted listing `items`. */
  function Listing(fs: FileSystem, path: string, items: seq<string>): seq<Row>
  {
    ParentRows(path) + FolderRows(fs, path, items) + PictureRows(path, items)
  }

  /** What `load_folder(path)` shows, or `None` when it returns early and leaves the browser as it was. */
  function Load(fs: FileSystem, path: string): (r: Option<seq<Row>>)
    ensures r.None? <==> !fs.exists_(path) || fs.listDir(path).None?
  {
    if !fs.exists_(path) then None
    else match fs.listDir(path)
      case None => None
      case Some(names) => Some(Listing(fs, path, SortStrings(names)))
  }

  // ------------------------------------------------------------ the rows

  /** Every row of one loop has that loop's kind and icon, and comes from an accepted item. */
  lemma {:induction false} RowsMembers(path: string, items: seq<string>, keep: string -> bool, icon: string, kind: Kind, n: nat)
    requires n <= |items|
    ensures |Rows(path, items, keep, icon, kind, n)| <= n
    ensures forall e :: e in Rows(path, items, keep, icon, kind, n) ==> e.kind == kind
    ensures forall e :: e in Rows(path, items, keep, icon, kind, n) <==>
      exists i :: 0 <= i < n && keep(items[i]) && e == RowOf(path, icon, kind, items[i])
    decreases n
  {
    if n > 0 {
      RowsMembers(path, items, keep, icon, kind, n - 1);
      var e := RowOf(path, icon, kind, items[n - 1]);
      forall x | x in Rows(path, items, keep, icon, kind, n)
        ensures exists i :: 0 <= i < n && keep(items[i]) && x == RowOf(path, icon, kind, items[i])
      {
        if x !in Rows(path, items, keep, icon, kind, n - 1) {
          assert keep(items[n - 1]) && x == e;
        }
      }
      forall i | 0 <= i < n && keep(items[i])
        ensures RowOf(path, icon, kind, items[i]) in Rows(path, items, keep, icon, kind, n)
      {
        if i < n - 1 {
          assert RowOf(path, icon, kind, items[i]) in Rows(path, items, keep, icon, kind, n - 1);
        }
      }
    }
  }

  /** Rows follow the order of their items: a sorted listing gives rows sorted by text. */
  lemma {:induction false} RowsSorted(path: string, items: seq<string>, keep: string -> bool, icon: string, kind: Kind, n: nat)
    requires n <= |items| && StrSorted(items)
    ensures StrSorted(Texts(Rows(path, items, keep, icon, kind, n)))
    ensures forall t :: t in Texts(Rows(path, items, keep, icon, kind, n)) ==>
      exists i :: 0 <= i < n && t == icon + items[i]
    decreases n
  {
    if n > 0 {
      RowsSorted(path, items, keep, icon, kind, n - 1);
      var before := Rows(path, items, keep, icon, kind, n - 1);
      TextsAppend(before, if keep(items[n - 1]) then [RowOf(path, icon, kind, items[n - 1])] else []);
      if keep(items[n - 1]) {
        var t := icon + items[n - 1];
        forall u | u in Texts(before)
          ensures StrAtMost(u, t)
        {
          var i :| 0 <= i < n - 1 && u == icon + items[i];
          assert StrAtMost(items[i], items[n - 1]);
          StrLessPrefix(icon, items[i], items[n - 1]);
        }
        AppendSorted(Texts(before), t);
      }
    }
  }

  function Texts(rs: seq<Row>): (ts: seq<string>)
    ensures |ts| == |rs|
    ensures forall i :: 0 <= i < |rs| ==> ts[i] == rs[i].text
  {
    seq(|rs|, i requires 0 <= i < |rs| => rs[i].text)
  }

  lemma TextsAppend(a: seq<Row>, b: seq<Row>)
    ensures Texts(a + b) == Texts(a) + Texts(b)
  {
  }

  /** No row after the first file row is a folder row: the parent and the folders come first. */
  lemma FoldersBeforeFiles(fs: FileSystem, path: string, items: seq<string>)
    ensures var t := Listing(fs, path, items);
      forall i, j :: 0 <= i < j < |t| && t[i].kind == File ==> t[j].kind == File
  {
    var dirs := ParentRows(path) + FolderRows(fs, path, items);
    var files := PictureRows(path, items);
    RowsMembers(path, items, FolderTest(fs, path), FolderIcon, Dir, |items|);
    RowsMembers(path, items, IsPicture, PictureIcon, File, |items|);
    assert forall i :: 0 <= i < |dirs| ==> dirs[i].kind == Dir by {
      forall i | 0 <= i < |dirs|
        ensures dirs[i].kind == Dir
      {
        if i >= |ParentRows(path)| {
          assert dirs[i] in FolderRows(fs, path, items);
        }
      }
    }
    assert forall j :: 0 <= j < |files| ==> files[j].kind == File by {
      forall j | 0 <= j < |files|
        ensures files[j].kind == File
      {
        assert files[j] in files;
      }
    }
    var t := dirs + files;
    forall i, j | 0 <= i < j < |t| && t[i].kind == File
      ensures t[j].kind == File
    {
      assert i >= |dirs|;
      assert t[j] == files[j - |dirs|];
    }
  }

  /** The folder rows are the non-hidden directories of the listing, in sorted order. */
  lemma FolderRowsAreVisibleDirectories(fs: FileSystem, path: string, names: seq<string>)
    ensures var items := SortStrings(names);
      && StrSorted(Texts(FolderRows(fs, path, items)))
      && forall item :: item in names ==>
        (RowOf(path, FolderIcon, Dir, item) in FolderRows(fs, path, items) <==> IsFolder(fs, path, item))
  {
    var items := SortStrings(names);
    SortStringsSorted(names);
    RowsSorted(path, items, FolderTest(fs, path), FolderIcon, Dir, |items|);
    RowsMembers(path, items, FolderTest(fs, path), FolderIcon, Dir, |items|);
    forall item | item in names
      ensures RowOf(path, FolderIcon, Dir, item) in FolderRows(fs, path, items) <==> IsFolder(fs, path, item)
    {
      assert item in multiset(items);
      var k :| 0 <= k < |items| && items[k] == item;
      if RowOf(path, FolderIcon, Dir, item) in FolderRows(fs, path, items) {
        var i :| 0 <= i < |items| && FolderTest(fs, path)(items[i]) && RowOf(path, FolderIcon, Dir, item) == RowOf(path, FolderIcon, Dir, items[i]);
        assert FolderIcon + item == FolderIcon + items[i];
        assert item == (FolderIcon + item)[|FolderIcon|..];
        assert items[i] == (FolderIcon + items[i])[|FolderIcon|..];
      }
    }
  }

  /**
   * The file rows are the names with a picture suffix, in sorted order. Hidden
   * names are not excluded, and a directory is not excluded either.
   */
  lemma PictureRowsAreImageNames(path: string, names: seq<string>)
    ensures var items := SortStrings(names);
      && StrSorted(Texts(PictureRows(path, items)))
      && forall item :: item in names ==>
        (RowOf(path, PictureIcon, File, item) in PictureRows(path, items) <==> IsPicture(item))
  {
    var items := SortStrings(names);
    SortStringsSorted(names);
    RowsSorted(path, items, IsPicture, PictureIcon, File, |items|);
    RowsMembers(path, items, IsPicture, PictureIcon, File, |items|);
    forall item | item in names
      ensures RowOf(path, PictureIcon, File, item) in PictureRows(path, items) <==> IsPicture(item)
    {
      assert item in multiset(items);
      var k :| 0 <= k < |items| && items[k] == item;
      if RowOf(path, PictureIcon, File, item) in PictureRows(path, items) {
        var i :| 0 <= i < |items| && IsPicture(items[i]) && RowOf(path, PictureIcon, File, item) == RowOf(path, PictureIcon, File, items[i]);
        assert PictureIcon + item == PictureIcon + items[i];
        assert item == (PictureIcon + item)[|PictureIcon|..];
        assert items[i] == (PictureIcon + items[i])[|PictureIcon|..];
      }
    }
  }

  /** A visible directory named like a picture is listed twice: once as a folder, once as a file. */
  lemma PictureNamedDirectoryListedTwice(fs: FileSystem, path: string, names: seq<string>, item: string)
    requires item in names && !StartsWith(item, ".") && fs.isDir(Join(path, item)) && IsPicture(item)
    ensures RowOf(path, FolderIcon, Dir, item) in Listing(fs, path, SortStrings(names))
    ensures RowOf(path, PictureIcon, File, item) in Listing(fs, path, SortStrings(names))
  {
    FolderRowsAreVisibleDirectories(fs, path, names);
    PictureRowsAreImageNames(path, names);
  }

  /** The first row is the parent row exactly when the path has a parent. */
  lemma ParentRowFirst(fs: FileSystem, path: string, items: seq<string>)
    ensures var t := Listing(fs, path, items);
      (|t| > 0 && t[0] == Row(ParentText, Dirname(path), Dir)) <==> HasParent(path)
  {
    var t := Listing(fs, path, items);
    if !HasParent(path) && |t| > 0 && t[0].text == ParentText {
      var folders := FolderRows(fs, path, items);
      RowsMembers(path, items, FolderTest(fs, path), FolderIcon, Dir, |items|);
      RowsMembers(path, items, IsPicture, PictureIcon, File, |items|);
      if |folders| > 0 {
        assert t[0] == folders[0] && folders[0] in folders;
        var i :| 0 <= i < |items| && FolderTest(fs, path)(items[i]) && t[0] == RowOf(path, FolderIcon, Dir, items[i]);
        assert ParentText == FolderIcon + items[i];
        assert items[i][0] == ParentText[|FolderIcon|];
      } else {
        var files := PictureRows(path, items);
        assert t[0] == files[0] && files[0] in files;
      }
    }
  }

  /** The root has no parent row: its dirname is itself. A bare name has none either: its dirname is empty. */
  lemma RootHasNoParent()
    ensures !HasParent("/")
    ensures !HasParent("photos")
    ensures HasParent("/home") && Dirname("/home") == "/"
  {
    assert RFind("/", '/') == 0;
    assert AllSlashes("/");
    assert RFind("photos", '/') == -1 by {
      assert RFind("photo", '/') == RFind("phot", '/') == RFind("pho", '/') == -1;
    }
    assert RFind("/home", '/') == 0 by {
      assert "/home"[..4] == "/hom" && "/hom"[..3] == "/ho" && "/ho"[..2] == "/h" && "/h"[..1] == "/";
      assert RFind("/home", '/') == RFind("/hom", '/') == RFind("/ho", '/') == RFind("/h", '/') == RFind("/", '/');
    }
    assert "/home"[..1] == "/";
  }

  // ------------------------------------------------------------ the browser

  class ImagePicker {
    var selectedPath: Option<string>
    var currentFolder: string
    /** The text of the path entry. */
    var pathText: string
    var tree: seq<Row>
    var windowOpen: bool

    /** `ImagePicker(parent)`: nothing selected, starting in the home folder `home`. */
    constructor (home: string)
      ensures selectedPath == None && currentFolder == home && tree == [] && !windowOpen
    {
      selectedPath := None;
      currentFolder := home;
      pathText := home;
      tree := [];
      windowOpen := false;
    }

    /**
     * `open(initial_dir)` up to its event loop: an existing, non-empty
     * `initialDir` becomes the current folder, a fresh window with an empty
     * tree opens, and the current folder is loaded into it.
     */
    method Open(fs: FileSystem, initialDir: Option<string>)
      modifies this
      ensures var start := if initialDir.Some? && initialDir.value != "" && fs.exists_(initialDir.value)
                           then initialDir.value else old(currentFolder);
        && windowOpen && selectedPath == old(selectedPath)
        && (Load(fs, start).Some? ==> currentFolder == start && pathText == start && tree == Load(fs, start).value)
        && (Load(fs, start).None? ==> currentFolder == start && pathText == start && tree == [])
    {
      if initialDir.Some? && initialDir.value != "" && fs.exists_(initialDir.value) {
        currentFolder := initialDir.value;
      }
      windowOpen := true;
      pathText := currentFolder;
      tree := [];
      LoadFolder(fs, currentFolder);
    }

    /** `load_folder(path)`: nothing changes when the path is missing or cannot be listed. */
    method LoadFolder(fs: FileSystem, path: string)
      modifies this
      ensures selectedPath == old(selectedPath) && windowOpen == old(windowOpen)
      ensures Load(fs, path).None? ==>
        tree == old(tree) && currentFolder == old(currentFolder) && pathText == old(pathText)
      ensures Load(fs, path).Some? ==>
        tree == Load(fs, path).value && currentFolder == path && pathText == path
    {
      if !fs.exists_(path) {
        return;
      }
      var listing := fs.listDir(path);
      if listing.None? {
        return;
      }
      Show(fs, path, SortStrings(listing.value));
    }

    /** The part of `load_folder` after the listing succeeded: the tree is rebuilt from the sorted `items`. */
    method Show(fs: FileSystem, path: string, items: seq<string>)
      modifies this
      ensures tree == Listing(fs, path, items) && currentFolder == path && pathText == path
      ensures selectedPath == old(selectedPath) && windowOpen == old(windowOpen)
    {
      Clear();
      currentFolder := path;
      pathText := path;
      var parent := Dirname(path);
      if parent != "" && parent != path {
        tree := tree + [Row(ParentText, parent, Dir)];
      }
      assert tree == ParentRows(path);
      Insert(path, items, FolderTest(fs, path), FolderIcon, Dir);
      Insert(path, items, IsPicture, PictureIcon, File);
    }

    /** The loop deleting every row of the tree. */
    method Clear()
      modifies this
      ensures tree == []
      ensures selectedPath == old(selectedPath) && windowOpen == old(windowOpen)
      ensures currentFolder == old(currentFolder) && pathText == old(pathText)
    {
      while tree != []
        invariant selectedPath == old(selectedPath) && windowOpen == old(windowOpen)
        invariant currentFolder == old(currentFolder) && pathText == old(pathText)
        decreases |tree|
      {
        tree := tree[1..];
      }
    }

    /** One insertion loop: a row for every item `keep` accepts, in listing order. */
    method Insert(path: string, items: seq<string>, keep: string -> bool, icon: string, kind: Kind)
      modifies this
      ensures tree == old(tree) + Rows(path, items, keep, icon, kind, |items|)
      ensures selectedPath == old(selectedPath) && windowOpen == old(windowOpen)
      ensures currentFolder == old(currentFolder) && pathText == old(pathText)
    {
      for i := 0 to |items|
        invariant tree == old(tree) + Rows(path, items, keep, icon, kind, i)
        invariant selectedPath == old(selectedPath) && windowOpen == old(windowOpen)
        invariant currentFolder == old(currentFolder) && pathText == old(pathText)
      {
        if keep(items[i]) {
          tree := tree + [RowOf(path, icon, kind, items[i])];
        }
      }
    }

    /** `go_up`: the parent is loaded only when there is one. */
    method GoUp(fs: FileSystem)
      modifies this
      ensures selectedPath == old(selectedPath) && windowOpen == old(windowOpen)
      ensures var parent := Dirname(old(currentFolder));
        if HasParent(old(currentFolder)) && Load(fs, parent).Some?
        then tree == Load(fs, parent).value && currentFolder == parent && pathText == parent
        else tree == old(tree) && currentFolder == old(currentFolder) && pathText == old(pathText)
    {
      var parent := Dirname(currentFolder);
      if parent != "" && parent != currentFolder {
        LoadFolder(fs, parent);
      }
    }

    /**
     * `on_double_click` and `confirm_selection`, which share one body: with
     * no row selected nothing happens; a folder row opens its folder; a file
     * row becomes the selected path and closes the window.
     */
    method Activate(fs: FileSystem, selection: Option<nat>)
      requires selection.Some? ==> selection.value < |tree|
      modifies this
      ensures selection.None? ==> unchanged(this)
      ensures selection.Some? && old(tree)[selection.value].kind == File ==>
        && selectedPath == Some(old(tree)[selection.value].path) && !windowOpen
        && tree == old(tree) && currentFolder == old(currentFolder) && pathText == old(pathText)
      ensures selection.Some? && old(tree)[selection.value].kind == Dir ==>
        var target := old(tree)[selection.value].path;
        && selectedPath == old(selectedPath) && windowOpen == old(windowOpen)
        && (Load(fs, target).Some? ==> tree == Load(fs, target).value && currentFolder == target)
        && (Load(fs, target).None? ==> tree == old(tree) && currentFolder == old(currentFolder))
    {
      if selection.None? {
        return;
      }
      var row := tree[selection.value];
      if row.kind == Dir {
        LoadFolder(fs, row.path);
      } else {
        selectedPath := Some(row.path);
        windowOpen := false;
      }
    }

    /** `on_path_enter`: the typed path is loaded when it names a directory. */
    method EnterPath(fs: FileSystem, typed: string)
      modifies this
      ensures selectedPath == old(selectedPath) && windowOpen == old(windowOpen)
      ensures fs.isDir(typed) && Load(fs, typed).Some? ==>
        tree == Load(fs, typed).value && currentFolder == typed && pathText == typed
      ensures !(fs.isDir(typed) && Load(fs, typed).Some?) ==>
        tree == old(tree) && currentFolder == old(currentFolder) && pathText == typed
    {
      pathText := typed;
      if fs.isDir(typed) {
        LoadFolder(fs, typed);
      }
    }
  }

  /** Going up from the root, or from a bare name, leaves the browser where it is. */
  method GoUpFromRoot(fs: FileSystem, p: ImagePicker)
    requires p.currentFolder == "/"
    modifies p
    ensures p.currentFolder == "/" && p.tree == old(p.tree)
  {
    RootHasNoParent();
    p.GoUp(fs);
  }
}
