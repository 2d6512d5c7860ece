/**
 * The state `BatchWindow` keeps behind its widgets: the list of selected
 * files and the listbox that shows it, and the counters the batch run's
 * callbacks update. File dialogs, the folder listing, the confirmation
 * boxes and the listbox selection are parameters; the worker thread is a
 * sequential run whose callbacks are delivered in order, with the user's
 * "stop" arriving before one of them.
 */
module BatchUi {
  import opened Wrappers
  import opened Imaging
  import opened PyText
  import opened PyPath
  import opened BatchProcessor
  import Utils
  import Config

  // ------------------------------------------------------- the file list

  const FileIcon: string := "\U{1F4C4} "

  /** The listbox line of a file: an icon and the file's name. */
  function Label(path: string): string
  {
    FileIcon + Basename(path)
  }

  function Labels(paths: seq<string>): (ls: seq<string>)
    ensures |ls| == |paths|
    ensures forall i :: 0 <= i < |paths| ==> ls[i] == Label(paths[i])
  {
    seq(|paths|, i requires 0 <= i < |paths| => Label(paths[i]))
  }

  predicate Distinct(s: seq<string>)
  {
    forall i, j :: 0 <= i < j < |s| ==> s[i] != s[j]
  }

  /**
   * The list after the first `n` of `files` have been offered in turn, each
   * appended unless it is already in the list. The old list is kept as a
   * prefix, the new list holds exactly the old entries and the offered
   * files, and no duplicate is introduced.
   */
  function Appended(selected: seq<string>, files: seq<string>, n: nat): (r: seq<string>)
    requires n <= |files|
    ensures |selected| <= |r| <= |selected| + n && r[..|selected|] == selected
    ensures forall x :: x in r <==> x in selected || x in files[..n]
    ensures Distinct(selected) ==> Distinct(r)
    decreases n
  {
    if n == 0 then selected
    else
      var prev := Appended(selected, files, n - 1);
      assert files[..n] == files[..n - 1] + [files[n - 1]];
      if files[n - 1] in prev then prev
      else
        assert (prev + [files[n - 1]])[..|selected|] == prev[..|selected|];
        prev + [files[n - 1]]
  }

  /** Files that are all in the list already add nothing. */
  lemma {:induction false} AppendedPresent(selected: seq<string>, files: seq<string>, n: nat)
    requires n <= |files|
    requires forall k :: 0 <= k < n ==> files[k] in selected
    ensures Appended(selected, files, n) == selected
    decreases n
  {
    if n > 0 {
      AppendedPresent(selected, files, n - 1);
    }
  }

  /** Offering the same files a second time adds nothing. */
  lemma AddTwiceAddsNothing(selected: seq<string>, files: seq<string>)
    ensures var once := Appended(selected, files, |files|);
      Appended(once, files, |files|) == once
  {
    var once := Appended(selected, files, |files|);
    forall k | 0 <= k < |files|
      ensures files[k] in once
    {
      assert files[k] in files[..|files|];
    }
    AppendedPresent(once, files, |files|);
  }

  /** Offering more files later does not change what the first `n` offers did. */
  lemma {:induction false} AppendedExtend(selected: seq<string>, files: seq<string>, x: string, n: nat)
    requires n <= |files|
    ensures Appended(selected, files + [x], n) == Appended(selected, files, n)
    decreases n
  {
    if n > 0 {
      AppendedExtend(selected, files, x, n - 1);
      assert (files + [x])[n - 1] == files[n - 1];
    }
  }

  /** Offering one more file appends it unless it is already in the list. */
  lemma AppendedStep(selected: seq<string>, files: seq<string>, x: string)
    ensures var prev := Appended(selected, files, |files|);
      Appended(selected, files + [x], |files| + 1) == if x in prev then prev else prev + [x]
  {
    AppendedExtend(selected, files, x, |files|);
    assert (files + [x])[|files|] == x;
  }

  /** The suffixes `add_folder` accepts. */
  const FolderExtensions: seq<string> := [".jpg", ".jpeg", ".png", ".bmp", ".gif", ".tiff"]

  predicate IsImageFile(path: string)
  {
    Lower(Suffix(path)) in FolderExtensions
  }

  /** The entries among the first `n` of a folder listing that `keep` accepts, in listing order. */
  function ImageFiles(listing: seq<string>, keep: string -> bool, n: nat): seq<string>
    requires n <= |listing|
    decreases n
  {
    if n == 0 then []
    else ImageFiles(listing, keep, n - 1) + (if keep(listing[n - 1]) then [listing[n - 1]] else [])
  }

  lemma ImageFilesStep(listing: seq<string>, keep: string -> bool, i: nat)
    requires i < |listing|
    ensures ImageFiles(listing, keep, i + 1)
      == ImageFiles(listing, keep, i) + (if keep(listing[i]) then [listing[i]] else [])
  {
  }

  /** Exactly the accepted entries are offered. */
  lemma {:induction false} ImageFilesMembers(listing: seq<string>, keep: string -> bool, n: nat)
    requires n <= |listing|
    ensures |ImageFiles(listing, keep, n)| <= n
    ensures forall x :: x in ImageFiles(listing, keep, n) <==> x in listing[..n] && keep(x)
    decreases n
  {
    if n > 0 {
      ImageFilesMembers(listing, keep, n - 1);
      assert listing[..n] == listing[..n - 1] + [listing[n - 1]];
    }
  }

  // ------------------------------------------------------- the selection

  /** The entries of `s` from position `from` on whose positions are not in `drop`, in order. */
  function Kept(s: seq<string>, drop: set<int>, from: nat): seq<string>
    requires from <= |s|
    decreases |s| - from
  {
    if from == |s| then []
    else (if from in drop then [] else [s[from]]) + Kept(s, drop, from + 1)
  }

  /** Only the positions from `from` on matter. */
  lemma {:induction false} KeptAgree(s: seq<string>, d1: set<int>, d2: set<int>, from: nat)
    requires from <= |s|
    requires forall i :: from <= i < |s| ==> (i in d1 <==> i in d2)
    ensures Kept(s, d1, from) == Kept(s, d2, from)
    decreases |s| - from
  {
    if from < |s| {
      KeptAgree(s, d1, d2, from + 1);
    }
  }

  /** A stretch without dropped positions is kept whole. */
  lemma {:induction false} KeptStretch(s: seq<string>, drop: set<int>, from: nat, to: nat)
    requires from <= to <= |s|
    requires forall i :: from <= i < to ==> i !in drop
    ensures Kept(s, drop, from) == s[from..to] + Kept(s, drop, to)
    decreases |s| - from
  {
    if from < to {
      KeptStretch(s, drop, from + 1, to);
      assert from !in drop;
      assert Kept(s, drop, from) == [s[from]] + Kept(s, drop, from + 1);
      assert s[from..to] == [s[from]] + s[from + 1..to];
    }
  }

  /** Exactly the positions outside `drop` survive: every one of them, and nothing else. */
  lemma {:induction false} KeptMembers(s: seq<string>, drop: set<int>, from: nat)
    requires from <= |s|
    ensures forall i :: from <= i < |s| && i !in drop ==> s[i] in Kept(s, drop, from)
    ensures forall x :: x in Kept(s, drop, from) ==> exists i :: from <= i < |s| && i !in drop && s[i] == x
    decreases |s| - from
  {
    if from < |s| {
      KeptMembers(s, drop, from + 1);
    }
  }

  /**
   * Deleting the entry at `p` from a list that already lacks the positions
   * of `drop`, all of them beyond `p`, gives the list without `drop` and `p`.
   */
  lemma DropBelow(s: seq<string>, drop: set<int>, p: nat)
    requires p < |s|
    requires forall d :: d in drop ==> d > p
    ensures var k := Kept(s, drop, 0);
      p < |k| && Kept(s, drop + {p}, 0) == k[..p] + k[p + 1..]
  {
    var rest := Kept(s, drop, p + 1);
    var k := Kept(s, drop, 0);
    assert k == s[..p] + ([s[p]] + rest) by {
      KeptStretch(s, drop, 0, p);
      assert p !in drop;
      assert s[0..p] == s[..p];
    }
    assert Kept(s, drop + {p}, 0) == s[..p] + rest by {
      KeptStretch(s, drop + {p}, 0, p);
      assert p in drop + {p};
      KeptAgree(s, drop, drop + {p}, p + 1);
      assert s[0..p] == s[..p];
    }
    assert k[..p] == s[..p];
    assert k[p + 1..] == rest;
  }

  /** The positions `indices[k..]` name. */
  function Positions(indices: seq<int>, k: nat): set<int>
    requires k <= |indices|
  {
    set j | k <= j < |indices| :: indices[j]
  }

  // -------------------------------------------------------- the counters

  /** The three fields the callbacks of a run read and write. */
  datatype Tally = Tally(processing: bool, currentProgress: int, failedCount: int)

  /** `on_progress` and `on_error` on one callback. */
  function Received(t: Tally, e: Event): (r: Tally)
    ensures e.Progress? && t.processing ==> r == t.(currentProgress := e.current)
    ensures e.Progress? && !t.processing ==> r == t
    ensures e.Error? ==> r == t.(failedCount := t.failedCount + 1)
  {
    match e
    case Progress(current, _, _) => if t.processing then t.(currentProgress := current) else t
    case Error(_, _) => t.(failedCount := t.failedCount + 1)
  }

  /** The counters after the callbacks `events`, the user stopping the run just before callback number `stopAt`. */
  function Delivered(t: Tally, events: seq<Event>, stopAt: nat): Tally
    decreases |events|
  {
    if events == [] then t
    else
      var prev := Delivered(t, events[..|events| - 1], stopAt);
      var before := if |events| - 1 == stopAt then prev.(processing := false) else prev;
      Received(before, events[|events| - 1])
  }

  function ErrorCount(events: seq<Event>): nat
    decreases |events|
  {
    if events == [] then 0
    else ErrorCount(events[..|events| - 1]) + (if events[|events| - 1].Error? then 1 else 0)
  }

  /** One more failure per error callback, whenever the user stopped. */
  lemma {:induction false} FailuresCounted(t: Tally, events: seq<Event>, stopAt: nat)
    ensures Delivered(t, events, stopAt).failedCount == t.failedCount + ErrorCount(events)
    decreases |events|
  {
    if events != [] {
      FailuresCounted(t, events[..|events| - 1], stopAt);
    }
  }

  /** Stopping never touches the failure count: the run goes on and so do its error callbacks. */
  lemma StopLeavesFailures(t: Tally, events: seq<Event>, stopAt: nat, never: nat)
    requires never >= |events|
    ensures Delivered(t, events, stopAt).failedCount == Delivered(t, events, never).failedCount
  {
    FailuresCounted(t, events, stopAt);
    FailuresCounted(t, events, never);
  }

  function Failures(os: seq<Outcome>, n: nat): nat
    requires n <= |os|
  {
    if n == 0 then 0 else Failures(os, n - 1) + (if os[n - 1].Raised? then 1 else 0)
  }

  function Successes(os: seq<Outcome>, n: nat): nat
    requires n <= |os|
  {
    if n == 0 then 0 else Successes(os, n - 1) + (if os[n - 1].Written? then 1 else 0)
  }

  lemma {:induction false} EveryFileCounted(os: seq<Outcome>, n: nat)
    requires n <= |os|
    ensures Successes(os, n) + Failures(os, n) == n
  {
    if n > 0 {
      EveryFileCounted(os, n - 1);
    }
  }

  /** With both callbacks set, a run delivers one callback per file, an error callback for each failure. */
  lemma CallbacksOfRun(paths: seq<string>, os: seq<Outcome>, n: nat)
    requires n <= |paths| && n <= |os|
    ensures |Events(paths, os, n, true, true)| == n
    ensures ErrorCount(Events(paths, os, n, true, true)) == Failures(os, n)
  {
    CallbackPerFile(paths, os, n);
    ErrorPerFailure(paths, os, n);
  }

  lemma {:induction false} CallbackPerFile(paths: seq<string>, os: seq<Outcome>, n: nat)
    requires n <= |paths| && n <= |os|
    ensures |Events(paths, os, n, true, true)| == n
  {
    if n > 0 {
      CallbackPerFile(paths, os, n - 1);
      OneEventEach(n - 1, |paths|, paths[n - 1], os[n - 1]);
    }
  }

  lemma {:induction false} ErrorPerFailure(paths: seq<string>, os: seq<Outcome>, n: nat)
    requires n <= |paths| && n <= |os|
    ensures ErrorCount(Events(paths, os, n, true, true)) == Failures(os, n)
  {
    if n > 0 {
      ErrorPerFailure(paths, os, n - 1);
      var prev := Events(paths, os, n - 1, true, true);
      var e := EventOf(n - 1, |paths|, paths[n - 1], os[n - 1], true, true);
      OneEventEach(n - 1, |paths|, paths[n - 1], os[n - 1]);
      assert Events(paths, os, n, true, true) == prev + [e[0]];
      ErrorCountAppend(prev, e[0]);
    }
  }

  /** With both callbacks set, each outcome triggers one callback, an error callback exactly for a failure. */
  lemma OneEventEach(i: nat, total: nat, path: string, o: Outcome)
    ensures var e := EventOf(i, total, path, o, true, true);
      |e| == 1 && e == [e[0]] && (e[0].Error? <==> o.Raised?)
  {
  }

  lemma ErrorCountAppend(events: seq<Event>, e: Event)
    ensures ErrorCount(events + [e]) == ErrorCount(events) + (if e.Error? then 1 else 0)
  {
    assert (events + [e])[..|events|] == events;
  }

  /** The counters `start_processing` sets before the worker starts. */
  const Started: Tally := Tally(true, 0, 0)

  /** The success count `on_complete` reports, as written: the last progress index less the failures. */
  function ReportedSuccess(t: Tally): int
  {
    t.currentProgress - t.failedCount
  }

  /**
   * The count as written is wrong for a successful file followed by a
   * failed one (it reports no success) and negative when every file fails.
   */
  lemma ReportedSuccessMiscounts()
    ensures var paths := ["a.jpg", "b.jpg"];
      var os := [Written(Record("a.jpg", None, true, Some(0), None), Image(0, 0, [])), Raised(CouldNotLoad("b.jpg"))];
      ReportedSuccess(Delivered(Started, Events(paths, os, 2, true, true), 2)) == 0 && Successes(os, 2) == 1
    ensures var paths := ["b.jpg"];
      var os := [Raised(CouldNotLoad("b.jpg"))];
      ReportedSuccess(Delivered(Started, Events(paths, os, 1, true, true), 1)) == -1 && Successes(os, 1) == 0
  {
    var paths := ["a.jpg", "b.jpg"];
    var rec := Record("a.jpg", None, true, Some(0), None);
    var os := [Written(rec, Image(0, 0, [])), Raised(CouldNotLoad("b.jpg"))];
    var es := Events(paths, os, 2, true, true);
    assert Events(paths, os, 1, true, true) == [Progress(1, 2, rec)];
    assert es == [Progress(1, 2, rec), Error("b.jpg", Message(CouldNotLoad("b.jpg")))];
    assert es[..1] == [Progress(1, 2, rec)];
    assert Delivered(Started, es[..1], 2) == Tally(true, 1, 0);
    var single := [Raised(CouldNotLoad("b.jpg"))];
    var one := Events(["b.jpg"], single, 1, true, true);
    assert one == [Error("b.jpg", Message(CouldNotLoad("b.jpg")))];
    assert one[..0] == [];
  }

  /**
   * The intended count, the files less the failures, is the number of files
   * that were processed, however early the user stopped.
   */
  lemma SuccessCountCorrect(paths: seq<string>, os: seq<Outcome>, stopAt: nat)
    requires |os| == |paths|
    ensures |paths| - Delivered(Started, Events(paths, os, |paths|, true, true), stopAt).failedCount == Successes(os, |paths|)
  {
    FailuresCounted(Started, Events(paths, os, |paths|, true, true), stopAt);
    CallbacksOfRun(paths, os, |paths|);
    EveryFileCounted(os, |paths|);
  }

  // ---------------------------------------------------------- the window

  /** `BatchWindow`, reduced to its file list and its run counters. */
  class BatchWindow {
    var selectedFiles: seq<string>
    var listbox: seq<string>
    var processing: bool
    var totalFiles: int
    var currentProgress: int
    var failedCount: int

    /** The listbox shows the selected files, one line per file, in order. */
    ghost predicate Valid()
      reads this
    {
      listbox == Labels(selectedFiles)
    }

    function Counters(): Tally
      reads this
    {
      Tally(processing, currentProgress, failedCount)
    }

    constructor()
      ensures Valid() && selectedFiles == []
      ensures !processing && totalFiles == 0 && currentProgress == 0 && failedCount == 0
    {
      selectedFiles := [];
      listbox := [];
      processing := false;
      totalFiles := 0;
      currentProgress := 0;
      failedCount := 0;
    }

    /**
     * `add_files`: each chosen file not yet in the list is appended, in the
     * order chosen; the count is the number appended.
     */
    method AddFiles(files: seq<string>) returns (addedCount: nat)
      requires Valid()
      modifies this
      ensures Valid()
      ensures selectedFiles == Appended(old(selectedFiles), files, |files|)
      ensures addedCount == |selectedFiles| - |old(selectedFiles)|
      ensures Counters() == old(Counters()) && totalFiles == old(totalFiles)
    {
      addedCount := 0;
      ghost var before := selectedFiles;
      for i := 0 to |files|
        invariant Valid() && selectedFiles == Appended(before, files, i)
        invariant addedCount == |selectedFiles| - |before|
        invariant Counters() == old(Counters()) && totalFiles == old(totalFiles)
      {
        var added := Offer(files[i]);
        if added {
          addedCount := addedCount + 1;
        }
      }
    }

    /**
     * `add_folder`: nothing for a cancelled dialog; otherwise each entry of
     * the listing with one of the six suffixes, in any case, is offered as
     * `add_files` offers a file.
     */
    method AddFolder(folder: string, listing: seq<string>) returns (addedCount: nat)
      requires Valid()
      modifies this
      ensures Valid()
      ensures folder == "" ==> selectedFiles == old(selectedFiles) && addedCount == 0
      ensures folder != "" ==>
        var images := ImageFiles(listing, IsImageFile, |listing|);
        selectedFiles == Appended(old(selectedFiles), images, |images|)
      ensures addedCount == |selectedFiles| - |old(selectedFiles)|
      ensures Counters() == old(Counters()) && totalFiles == old(totalFiles)
    {
      addedCount := 0;
      if folder == "" {
        return;
      }
      addedCount := OfferImages(listing, IsImageFile);
    }

    /** The loop of `add_folder` over the listing, offering the entries `keep` accepts. */
    method OfferImages(listing: seq<string>, keep: string -> bool) returns (addedCount: nat)
      requires Valid()
      modifies this
      ensures Valid()
      ensures var images := ImageFiles(listing, keep, |listing|);
        selectedFiles == Appended(old(selectedFiles), images, |images|)
      ensures addedCount == |selectedFiles| - |old(selectedFiles)|
      ensures Counters() == old(Counters()) && totalFiles == old(totalFiles)
    {
      addedCount := 0;
      ghost var before := selectedFiles;
      ghost var images: seq<string> := [];
      for i := 0 to |listing|
        invariant Valid()
        invariant images == ImageFiles(listing, keep, i)
        invariant selectedFiles == Appended(before, images, |images|)
        invariant addedCount == |selectedFiles| - |before|
        invariant Counters() == old(Counters()) && totalFiles == old(totalFiles)
      {
        images, addedCount := OfferAt(listing, keep, i, before, images, addedCount);
      }
    }

    /** One pass of that loop: entry `i` is offered when `keep` accepts it. */
    method OfferAt(listing: seq<string>, keep: string -> bool, i: nat, ghost before: seq<string>, ghost images: seq<string>, count: nat)
      returns (ghost nextImages: seq<string>, nextCount: nat)
      requires i < |listing| && Valid()
      requires images == ImageFiles(listing, keep, i)
      requires selectedFiles == Appended(before, images, |images|)
      requires count == |selectedFiles| - |before|
      modifies this
      ensures Valid()
      ensures nextImages == ImageFiles(listing, keep, i + 1)
      ensures selectedFiles == Appended(before, nextImages, |nextImages|)
      ensures nextCount == |selectedFiles| - |before|
      ensures Counters() == old(Counters()) && totalFiles == old(totalFiles)
    {
      ImageFilesStep(listing, keep, i);
      nextImages := images;
      nextCount := count;
      var file := listing[i];
      if keep(file) {
        var added := OfferNext(file, before, images);
        nextImages := images + [file];
        if added {
          nextCount := count + 1;
        }
      }
    }

    /** The next offer of a run that started from `before` and has offered `offered` so far. */
    method OfferNext(file: string, ghost before: seq<string>, ghost offered: seq<string>) returns (added: bool)
      requires Valid() && selectedFiles == Appended(before, offered, |offered|)
      modifies this
      ensures Valid() && selectedFiles == Appended(before, offered + [file], |offered| + 1)
      ensures added <==> |selectedFiles| == |old(selectedFiles)| + 1
      ensures !added ==> selectedFiles == old(selectedFiles)
      ensures Counters() == old(Counters()) && totalFiles == old(totalFiles)
    {
      AppendedStep(before, offered, file);
      added := Offer(file);
    }

    /** One offer: the file is appended unless it is in the list already. */
    method Offer(file: string) returns (added: bool)
      requires Valid()
      modifies this
      ensures Valid()
      ensures added <==> file !in old(selectedFiles)
      ensures selectedFiles == if added then old(selectedFiles) + [file] else old(selectedFiles)
      ensures Counters() == old(Counters()) && totalFiles == old(totalFiles)
    {
      added := file !in selectedFiles;
      if added {
        selectedFiles := selectedFiles + [file];
        listbox := listbox + [Label(file)];
      }
    }

    /**
     * `remove_selected`: nothing for an empty selection; otherwise the
     * selected positions (the listbox reports them ascending) are deleted
     * from the last to the first, which leaves the other files in order.
     */
    method RemoveSelected(indices: seq<int>) returns (removed: nat)
      requires Valid()
      requires forall k :: 0 <= k < |indices| ==> 0 <= indices[k] < |selectedFiles|
      requires forall k, l :: 0 <= k < l < |indices| ==> indices[k] < indices[l]
      modifies this
      ensures Valid()
      ensures selectedFiles == Kept(old(selectedFiles), Positions(indices, 0), 0)
      ensures |selectedFiles| == |old(selectedFiles)| - |indices| && removed == |indices|
      ensures Counters() == old(Counters()) && totalFiles == old(totalFiles)
    {
      ghost var s := selectedFiles;
      if indices == [] {
        KeptAgree(s, {}, Positions(indices, 0), 0);
        KeptStretch(s, {}, 0, |s|);
        assert s[0..|s|] == s;
        return 0;
      }
      KeptStretch(s, {}, 0, |s|);
      assert s[0..|s|] == s;
      assert Positions(indices, |indices|) == {};
      var k := |indices|;
      while k > 0
        invariant 0 <= k <= |indices|
        invariant Valid() && selectedFiles == Kept(s, Positions(indices, k), 0)
        invariant |selectedFiles| == |s| - (|indices| - k)
        invariant Counters() == old(Counters()) && totalFiles == old(totalFiles)
      {
        k := k - 1;
        DeleteAt(s, indices, k);
      }
      removed := |indices|;
    }

    /** One deletion of `remove_selected`'s loop, at the `k`-th selected position. */
    method DeleteAt(ghost s: seq<string>, indices: seq<int>, k: nat)
      requires Valid() && k < |indices|
      requires forall j :: 0 <= j < |indices| ==> 0 <= indices[j] < |s|
      requires forall j, l :: 0 <= j < l < |indices| ==> indices[j] < indices[l]
      requires selectedFiles == Kept(s, Positions(indices, k + 1), 0)
      modifies this
      ensures Valid() && selectedFiles == Kept(s, Positions(indices, k), 0)
      ensures |selectedFiles| == |old(selectedFiles)| - 1
      ensures Counters() == old(Counters()) && totalFiles == old(totalFiles)
    {
      var index := indices[k];
      DropBelow(s, Positions(indices, k + 1), index);
      assert Positions(indices, k) == Positions(indices, k + 1) + {index};
      selectedFiles := selectedFiles[..index] + selectedFiles[index + 1..];
      listbox := listbox[..index] + listbox[index + 1..];
    }

    /** `clear_all`: an empty list stays as it is; otherwise the list goes once the user confirms. */
    method ClearAll(confirmed: bool)
      requires Valid()
      modifies this
      ensures Valid()
      ensures old(selectedFiles) != [] && confirmed ==> selectedFiles == []
      ensures old(selectedFiles) == [] || !confirmed ==> selectedFiles == old(selectedFiles)
      ensures Counters() == old(Counters()) && totalFiles == old(totalFiles)
    {
      if selectedFiles == [] {
        return;
      }
      if confirmed {
        selectedFiles := [];
        listbox := [];
      }
    }

    /**
     * `start_processing` up to the worker: nothing without files, without
     * an output folder, or when the user declines to go on past invalid
     * files. Otherwise the counters are reset for the valid files, which
     * the worker is handed with the settings of the run.
     */
    method StartProcessing(outputDir: string, goOn: bool, exists_: string -> bool, read: string -> Option<Image>,
      mode: string, effect: string, blurStrength: int, pixelSize: int) returns (run: Option<(seq<string>, BatchSettings)>)
      requires Valid()
      modifies this
      ensures Valid() && selectedFiles == old(selectedFiles)
      ensures var split := Partition(selectedFiles, |selectedFiles|, Check(exists_, read));
        && (run.None? <==> selectedFiles == [] || outputDir == "" || (split.1 != [] && !goOn))
        && (run.None? ==> Counters() == old(Counters()) && totalFiles == old(totalFiles))
        && (run.Some? ==>
          && run.value == (split.0, BatchSettings(Some(mode), Some(effect), Some(blurStrength), Some(pixelSize)))
          && Counters() == Started && totalFiles == |split.0|)
    {
      if selectedFiles == [] || outputDir == "" {
        return None;
      }
      var valid, invalid := ValidateInputFiles(selectedFiles, exists_, read);
      if invalid != [] && !goOn {
        return None;
      }
      Begin(|valid|);
      run := Some((valid, BatchSettings(Some(mode), Some(effect), Some(blurStrength), Some(pixelSize))));
    }

    /** The counters a run starts from, over `count` files. */
    method Begin(count: int)
      modifies this
      ensures selectedFiles == old(selectedFiles) && listbox == old(listbox)
      ensures Counters() == Started && totalFiles == count
    {
      processing := true;
      totalFiles := count;
      currentProgress := 0;
      failedCount := 0;
    }

    /** `stop_processing`: once confirmed, only the flag is cleared; the run itself goes on. */
    method StopProcessing(confirmed: bool)
      requires Valid()
      modifies this
      ensures Valid() && selectedFiles == old(selectedFiles)
      ensures processing == (old(processing) && !confirmed)
      ensures currentProgress == old(currentProgress) && failedCount == old(failedCount) && totalFiles == old(totalFiles)
    {
      if confirmed {
        processing := false;
      }
    }

    /** `on_progress`: after a stop, progress is ignored. */
    method OnProgress(current: nat, total: nat, result: Record)
      requires Valid()
      modifies this
      ensures Valid() && selectedFiles == old(selectedFiles)
      ensures currentProgress == if old(processing) then current else old(currentProgress)
      ensures processing == old(processing) && failedCount == old(failedCount) && totalFiles == old(totalFiles)
    {
      if !processing {
        return;
      }
      currentProgress := current;
    }

    /** `on_error`: one more failure, stopped or not. */
    method OnError(path: string, message: string)
      requires Valid()
      modifies this
      ensures Valid() && selectedFiles == old(selectedFiles)
      ensures failedCount == old(failedCount) + 1
      ensures processing == old(processing) && currentProgress == old(currentProgress) && totalFiles == old(totalFiles)
    {
      failedCount := failedCount + 1;
    }

    /** The callbacks of a run delivered in order, the user stopping just before callback number `stopAt`. */
    method Deliver(events: seq<Event>, stopAt: nat)
      requires Valid()
      modifies this
      ensures Valid() && selectedFiles == old(selectedFiles) && totalFiles == old(totalFiles)
      ensures Counters() == Delivered(old(Counters()), events, stopAt)
    {
      ghost var t := Counters();
      for i := 0 to |events|
        invariant Valid() && selectedFiles == old(selectedFiles) && totalFiles == old(totalFiles)
        invariant Counters() == Delivered(t, events[..i], stopAt)
      {
        assert events[..i + 1][..i] == events[..i];
        if i == stopAt {
          StopProcessing(true);
        }
        match events[i]
        case Progress(current, total, result) =>
          OnProgress(current, total, result);
        case Error(path, message) =>
          OnError(path, message);
      }
      assert events[..|events|] == events;
    }

    /**
     * `on_complete`: the run is over and the success count is reported.
     * The count is the number of files less the failures; see
     * `ReportedSuccess` for the count as the window computes it.
     */
    method OnComplete() returns (successCount: int)
      requires Valid()
      modifies this
      ensures Valid() && selectedFiles == old(selectedFiles) && totalFiles == old(totalFiles)
      ensures !processing && currentProgress == old(currentProgress) && failedCount == old(failedCount)
      ensures successCount == totalFiles - failedCount
    {
      processing := false;
      successCount := totalFiles - failedCount;
    }

    /**
     * The worker: the batch runs to its end with both callbacks set, the
     * stop only silencing progress, and the window reports as successful
     * exactly the files that were processed.
     */
    method Worker(p: Processor, read: string -> Option<Image>, files: seq<string>, outputDir: string, s: BatchSettings, stopAt: nat)
      returns (successCount: int)
      requires Valid() && p.lib.Valid() && Decoder(read)
      requires Counters() == Started && totalFiles == |files|
      modifies this, p
      ensures Valid() && selectedFiles == old(selectedFiles) && !processing
      ensures successCount == Successes(Outcomes(p.lib, read, files, outputDir, s), |files|)
      ensures p.results == Records(files, Outcomes(p.lib, read, files, outputDir, s), |files|)
    {
      var results, events := p.ProcessBatch(read, files, outputDir, s, true, true);
      Deliver(events, stopAt);
      successCount := OnComplete();
      SuccessCountCorrect(files, Outcomes(p.lib, read, files, outputDir, s), stopAt);
    }
  }
}
