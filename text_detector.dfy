/**
 * TextDetector: finding a given word or phrase among Tesseract's words,
 * padding and clamping each match to the image, and merging the words of a
 * phrase that sit on one line into one box.
 *
 * Tesseract itself is `lib.ocr`; `tesseract` stands for the module-level
 * `TESSERACT_AVAILABLE` flag, and `image == None` for a missing image.
 */
module TextDetector {
  import opened Wrappers
  import opened Imaging
  import opened PyText
  import opened PyDict

  /** One accepted OCR word: its stripped text, its box and its confidence. */
  datatype Found = Found(text: string, box: Box, conf: int)

  /** The default `confidence_threshold` of every detector here. */
  const DefaultThreshold: int := 30
  /** Padding around a single matched word. */
  const WordPadding: int := 8
  /** Padding around a merged phrase. */
  const GroupPadding: int := 10
  /** `max_distance` of `_group_nearby_boxes`; the horizontal gap allowed is three times it. */
  const MaxDistance: int := 50

  function Abs(a: int): (r: nat)
    ensures r == a || r == -a
  {
    if a < 0 then -a else a
  }

  // ---------------------------------------------------------------- matching

  /** The text compared: as is when `case_sensitive`, otherwise lower-cased. */
  function Fold(s: string, caseSensitive: bool): (r: string)
    ensures |r| == |s|
    ensures caseSensitive ==> r == s
  {
    if caseSensitive then s else Lower(s)
  }

  /**
   * One step of the multi-word loop: does the detected word `compare` match
   * the target part `part`? The last branch is the source's `elif`, which
   * the prefix test already covers.
   */
  predicate PartMatches(compare: string, part: string, exact: bool)
  {
    if exact then compare == part
    else if StartsWith(compare, part) || StartsWith(part, compare) then |compare| <= |part| * 2
    else compare == part
  }

  /** In non-exact mode a part matches iff one string is a prefix of the other and the word is at most twice as long. */
  lemma PartMatchesNonExact(compare: string, part: string)
    ensures PartMatches(compare, part, false) <==>
      (StartsWith(compare, part) || StartsWith(part, compare)) && |compare| <= 2 * |part|
  {
    if compare == part {
      assert compare[..|part|] == part;
    }
  }

  /** A word equal to a part always matches it, in either mode. */
  lemma EqualPartMatches(w: string, exact: bool)
    ensures PartMatches(w, w, exact)
  {
    assert w[..|w|] == w;
  }

  /** The match test of `detect_specific_word` for a detected word against the prepared target. */
  predicate WordMatches(compare: string, target: string, targetWords: seq<string>, exact: bool)
  {
    if |targetWords| == 1 then
      (if exact then compare == target else Contains(compare, target))
    else SomePartMatches(compare, targetWords, exact)
  }

  /** Some part of the phrase matches the detected word. */
  predicate SomePartMatches(compare: string, parts: seq<string>, exact: bool)
    decreases |parts|
  {
    |parts| > 0 && (PartMatches(compare, parts[0], exact) || SomePartMatches(compare, parts[1..], exact))
  }

  lemma {:induction false} SomePartMatchesIff(compare: string, parts: seq<string>, exact: bool)
    ensures SomePartMatches(compare, parts, exact) <==> exists k :: 0 <= k < |parts| && PartMatches(compare, parts[k], exact)
    decreases |parts|
  {
    if |parts| > 0 {
      SomePartMatchesIff(compare, parts[1..], exact);
      assert forall k :: 1 <= k < |parts| ==> parts[k] == parts[1..][k - 1];
    }
  }

  /** Every string contains itself. */
  lemma ContainsSelf(s: string)
    ensures Contains(s, s)
  {
    assert s[..|s|] == s;
  }

  /** A match in exact mode is also a match in partial mode. */
  lemma ExactImpliesPartial(compare: string, target: string, targetWords: seq<string>)
    requires WordMatches(compare, target, targetWords, true)
    ensures WordMatches(compare, target, targetWords, false)
  {
    if |targetWords| == 1 {
      ContainsSelf(compare);
    } else {
      SomePartMatchesIff(compare, targetWords, true);
      SomePartMatchesIff(compare, targetWords, false);
      var k :| 0 <= k < |targetWords| && PartMatches(compare, targetWords[k], true);
      EqualPartMatches(compare, false);
      assert PartMatches(compare, targetWords[k], false);
    }
  }

  /** A detected word equal to the (single) target, or to one part of a phrase, matches in either mode. */
  lemma EqualWordMatches(compare: string, target: string, targetWords: seq<string>, exact: bool)
    requires if |targetWords| == 1 then compare == target else compare in targetWords
    ensures WordMatches(compare, target, targetWords, exact)
  {
    if |targetWords| == 1 {
      ContainsSelf(compare);
    } else {
      SomePartMatchesIff(compare, targetWords, exact);
      var k :| 0 <= k < |targetWords| && targetWords[k] == compare;
      EqualPartMatches(compare, exact);
      assert PartMatches(compare, targetWords[k], exact);
    }
  }

  /** The `for target_word_part in target_words` loop, leaving at the first part that matches. */
  method MatchesSomePart(compare: string, targetWords: seq<string>, exact: bool) returns (found: bool)
    ensures found <==> exists k :: 0 <= k < |targetWords| && PartMatches(compare, targetWords[k], exact)
    ensures found == SomePartMatches(compare, targetWords, exact)
  {
    SomePartMatchesIff(compare, targetWords, exact);
    found := false;
    var k := 0;
    while k < |targetWords|
      invariant 0 <= k <= |targetWords|
      invariant !found
      invariant forall m :: 0 <= m < k ==> !PartMatches(compare, targetWords[m], exact)
    {
      var part := targetWords[k];
      if exact {
        if compare == part {
          found := true;
        }
      } else if StartsWith(compare, part) || StartsWith(part, compare) {
        if |compare| <= |part| * 2 {
          found := true;
        }
      } else if compare == part {
        found := true;
      }
      if found {
        assert PartMatches(compare, targetWords[k], exact);
        break;
      }
      k := k + 1;
    }
  }

  /**
   * A prepared search: the stripped (and, unless case-sensitive, lower-cased)
   * target, its words, and the caller's options.
   */
  datatype Query = Query(target: string, words: seq<string>, threshold: int, caseSensitive: bool, exact: bool)

  /** The query `detect_specific_word` builds from its arguments. */
  function Prepare(targetWord: string, threshold: int, caseSensitive: bool, exact: bool): (q: Query)
    ensures q.threshold == threshold && q.caseSensitive == caseSensitive && q.exact == exact
    ensures !AllSpace(targetWord) ==> |q.words| >= 1
  {
    var target := Fold(Strip(targetWord), caseSensitive);
    StripFoldNotBlank(targetWord, caseSensitive);
    Query(target, Words(target), threshold, caseSensitive, exact)
  }

  /** A target with a visible character keeps one after stripping and case folding. */
  lemma StripFoldNotBlank(targetWord: string, caseSensitive: bool)
    ensures !AllSpace(targetWord) ==> |Words(Fold(Strip(targetWord), caseSensitive))| >= 1
  {
    if !AllSpace(targetWord) {
      var t := Strip(targetWord);
      StripEmptyIffAllSpace(targetWord);
      var f := Fold(t, caseSensitive);
      assert !IsSpace(t[0]);
      assert f[0] == t[0] || 'a' <= f[0] <= 'z';
      assert !IsSpace(f[0]);
      WordsNonEmpty(f);
    }
  }

  /** The tests an OCR entry must pass to become a match: non-blank text, an integer confidence of at least the threshold, and a matching word. */
  predicate Accepts(e: OcrEntry, q: Query)
  {
    && Strip(e.text) != []
    && e.conf.ConfInt?
    && e.conf.value >= q.threshold
    && WordMatches(Fold(Strip(e.text), q.caseSensitive), q.target, q.words, q.exact)
  }

  function FoundOf(e: OcrEntry): Found
    requires e.conf.ConfInt?
  {
    Found(Strip(e.text), EntryBox(e), e.conf.value)
  }

  /** The records of the entries `keep` selects that have an integer confidence, in OCR order. */
  function Records(entries: seq<OcrEntry>, keep: OcrEntry -> bool): (r: seq<Found>)
    ensures |r| <= |entries|
    ensures forall f :: f in r <==>
      exists i :: 0 <= i < |entries| && keep(entries[i]) && entries[i].conf.ConfInt? && f == FoundOf(entries[i])
    decreases |entries|
  {
    if |entries| == 0 then []
    else
      var e := entries[|entries| - 1];
      Records(entries[..|entries| - 1], keep) + (if keep(e) && e.conf.ConfInt? then [FoundOf(e)] else [])
  }

  /** `matched_boxes` after the loop over `entries`: the records of the accepted entries, in OCR order. */
  function Matched(entries: seq<OcrEntry>, q: Query): (r: seq<Found>)
    ensures |r| <= |entries|
  {
    Records(entries, e => Accepts(e, q))
  }

  /** A match is exactly the record of some accepted entry. */
  lemma MatchedIff(entries: seq<OcrEntry>, q: Query, f: Found)
    ensures f in Matched(entries, q) <==> exists i :: 0 <= i < |entries| && Accepts(entries[i], q) && f == FoundOf(entries[i])
  {
  }

  /** The threshold is inclusive: a matching word whose confidence equals it is kept. */
  lemma ThresholdInclusive(entries: seq<OcrEntry>, i: nat, q: Query)
    requires i < |entries| && Strip(entries[i].text) != []
    requires entries[i].conf == ConfInt(q.threshold)
    requires WordMatches(Fold(Strip(entries[i].text), q.caseSensitive), q.target, q.words, q.exact)
    ensures FoundOf(entries[i]) in Matched(entries, q)
  {
    MatchedIff(entries, q, FoundOf(entries[i]));
  }

  /** Entries with blank text, a non-integer confidence or a confidence under the threshold contribute no match. */
  lemma SkippedEntries(entries: seq<OcrEntry>, i: nat, q: Query, f: Found)
    requires i < |entries|
    requires Strip(entries[i].text) == [] || entries[i].conf == ConfNotInt || (entries[i].conf.ConfInt? && entries[i].conf.value < q.threshold)
    requires f in Matched(entries, q)
    ensures exists k :: 0 <= k < |entries| && k != i && Accepts(entries[k], q) && f == FoundOf(entries[k])
  {
    MatchedIff(entries, q, f);
  }

  /** The loop of `detect_specific_word` over the OCR entries, collecting `matched_boxes`. */
  method MatchEntries(entries: seq<OcrEntry>, q: Query) returns (found: seq<Found>)
    ensures found == Matched(entries, q)
  {
    found := [];
    var i := 0;
    while i < |entries|
      invariant 0 <= i <= |entries|
      invariant found == Matched(entries[..i], q)
    {
      var e := entries[i];
      var matchFound := MatchEntry(e, q);
      assert entries[..i + 1][..i] == entries[..i];
      if matchFound {
        found := found + [Found(Strip(e.text), EntryBox(e), e.conf.value)];
      }
      i := i + 1;
    }
    assert entries[..|entries|] == entries;
  }

  /** One pass of that loop: whether the entry's stripped text matches the query. */
  method MatchEntry(e: OcrEntry, q: Query) returns (matchFound: bool)
    ensures matchFound == Accepts(e, q)
  {
    var text := Strip(e.text);
    matchFound := false;
    if text != [] && e.conf.ConfInt? && e.conf.value >= q.threshold {
      var compare := if q.caseSensitive then text else Lower(text);
      if |q.words| == 1 {
        matchFound := if q.exact then compare == q.target else Contains(compare, q.target);
      } else {
        matchFound := MatchesSomePart(compare, q.words, q.exact);
      }
    }
  }

  // ---------------------------------------------------------- pad and clamp

  predicate Large(b: Box)
  {
    b.w > 5 && b.h > 5
  }

  /**
   * Grow `b` by `padding` on every side (the left and top edges stop at 0),
   * then clamp it to an `imgW`-by-`imgH` image.
   */
  function Clamp(b: Box, padding: int, imgW: int, imgH: int): (r: Box)
    ensures r.x >= 0 && r.y >= 0
    ensures Large(r) ==> InBounds(r, imgW, imgH)
  {
    var x := Max(0, b.x - padding);
    var y := Max(0, b.y - padding);
    var w := b.w + padding * 2;
    var h := b.h + padding * 2;
    var cx := Max(0, Min(x, imgW - 1));
    var cy := Max(0, Min(y, imgH - 1));
    Box(cx, cy, Min(w, imgW - cx), Min(h, imgH - cy))
  }

  /** Away from the image's edges, clamping only pads: `padding` more on every side. */
  lemma ClampInterior(b: Box, padding: nat, imgW: int, imgH: int)
    requires padding > 0 && b.w >= 0 && b.h >= 0
    requires b.x >= padding && b.y >= padding
    requires b.x + b.w + padding <= imgW && b.y + b.h + padding <= imgH
    ensures Clamp(b, padding, imgW, imgH) == Box(b.x - padding, b.y - padding, b.w + 2 * padding, b.h + 2 * padding)
  {
  }

  /** The regions of the single-word path: each match padded by 8 and clamped, kept when larger than 5 by 5. */
  function PadEach(found: seq<Found>, imgW: int, imgH: int): (r: seq<Box>)
    ensures |r| <= |found|
    ensures forall b :: b in r ==> InBounds(b, imgW, imgH) && Large(b)
    ensures forall b :: b in r <==> exists i :: 0 <= i < |found| && b == Clamp(found[i].box, WordPadding, imgW, imgH) && Large(b)
  {
    if |found| == 0 then []
    else
      var c := Clamp(found[|found| - 1].box, WordPadding, imgW, imgH);
      var prev := PadEach(found[..|found| - 1], imgW, imgH);
      assert forall i :: 0 <= i < |found| - 1 ==> found[..|found| - 1][i] == found[i];
      prev + (if Large(c) then [c] else [])
  }

  // --------------------------------------------------------------- ordering

  /** `(a.y, a.x) <= (b.y, b.x)`: the sort key of `_group_nearby_boxes`. */
  predicate Before(a: Found, b: Found)
  {
    a.box.y < b.box.y || (a.box.y == b.box.y && a.box.x <= b.box.x)
  }

  predicate SortedByPosition(s: seq<Found>)
  {
    forall i, j :: 0 <= i < j < |s| ==> Before(s[i], s[j])
  }

  /** Place `f` after every element whose key is at most its own. */
  function Insert(s: seq<Found>, f: Found): (r: seq<Found>)
    ensures |r| == |s| + 1
    ensures multiset(r) == multiset(s) + multiset{f}
    decreases |s|
  {
    if |s| == 0 || Before(s[|s| - 1], f) then s + [f]
    else
      var n := |s| - 1;
      assert s == s[..n] + [s[n]];
      Insert(s[..n], f) + [s[n]]
  }

  lemma {:induction false} InsertSorted(s: seq<Found>, f: Found)
    requires SortedByPosition(s)
    ensures SortedByPosition(Insert(s, f))
    decreases |s|
  {
    if |s| > 0 && !Before(s[|s| - 1], f) {
      var n := |s| - 1;
      var a := s[n];
      InsertSorted(s[..n], f);
      var r := Insert(s[..n], f);
      forall x | x in r
        ensures Before(x, a)
      {
        assert x in multiset(r);
        if x != f {
          assert x in multiset(s[..n]);
          var k :| 0 <= k < n && s[..n][k] == x;
          assert s[k] == x;
        }
      }
      forall i, j | 0 <= i < j < |r| + 1
        ensures Before((r + [a])[i], (r + [a])[j])
      {
        if j == |r| {
          assert r[i] in r;
        }
      }
    }
  }

  /** `sorted(matched_boxes, key=lambda b: (b['box'][1], b['box'][0]))`: a stable insertion sort. */
  function SortByPosition(s: seq<Found>): (r: seq<Found>)
    ensures |r| == |s|
    ensures multiset(r) == multiset(s)
    decreases |s|
  {
    if |s| == 0 then []
    else
      var n := |s| - 1;
      assert s == s[..n] + [s[n]];
      Insert(SortByPosition(s[..n]), s[n])
  }

  /** The sort orders by `(y, x)`. */
  lemma {:induction false} SortByPositionSorted(s: seq<Found>)
    ensures SortedByPosition(SortByPosition(s))
    decreases |s|
  {
    if |s| > 0 {
      SortByPositionSorted(s[..|s| - 1]);
      InsertSorted(SortByPosition(s[..|s| - 1]), s[|s| - 1]);
    }
  }

  // --------------------------------------------------------------- grouping

  /** `b2` joins the group seeded by `b1`: on roughly the same line, and beginning near where `b1` ends. */
  predicate Joins(b1: Box, b2: Box)
  {
    Abs(b1.y - b2.y) <= Max(b1.h, b2.h) && Abs(b2.x - (b1.x + b1.w)) < MaxDistance * 3
  }

  /** The indices below `k` that join the group seeded at `seed`, given the indices `used` by earlier groups. */
  function Joiners(s: seq<Box>, seed: nat, used: set<nat>, k: nat): (r: seq<nat>)
    requires seed < |s| && k <= |s|
    ensures forall m :: 0 <= m < |r| ==> r[m] < k
    decreases k
  {
    if k == 0 then []
    else
      var j := k - 1;
      Joiners(s, seed, used, j) + (if j !in used && j != seed && Joins(s[seed], s[j]) then [j] else [])
  }

  /** The joiners are exactly the unused indices, other than the seed, whose boxes join the seed's box. */
  lemma {:induction false} JoinersIff(s: seq<Box>, seed: nat, used: set<nat>, k: nat, j: nat)
    requires seed < |s| && k <= |s|
    ensures j in Joiners(s, seed, used, k) <==> j < k && j !in used && j != seed && Joins(s[seed], s[j])
    decreases k
  {
    if k > 0 {
      JoinersIff(s, seed, used, k - 1, j);
    }
  }

  function Elems(g: seq<nat>): set<nat>
  {
    set k | k in g
  }

  /** The groups formed so far, as index lists into the sorted boxes, and the indices they use. */
  datatype Grouping = Grouping(groups: seq<seq<nat>>, used: set<nat>)

  predicate GroupsWithin(groups: seq<seq<nat>>, n: nat)
  {
    forall g :: 0 <= g < |groups| ==> |groups[g]| > 0 && forall m :: 0 <= m < |groups[g]| ==> groups[g][m] < n
  }

  /** The state of the outer loop of `_group_nearby_boxes` once the seeds `0 .. i-1` have been visited. */
  function GroupsUpTo(s: seq<Box>, i: nat): (r: Grouping)
    requires i <= |s|
    ensures GroupsWithin(r.groups, |s|)
    ensures |r.groups| <= i
    decreases i
  {
    if i == 0 then Grouping([], {})
    else
      var prev := GroupsUpTo(s, i - 1);
      var seed := i - 1;
      if seed in prev.used then prev
      else
        var group := [seed] + Joiners(s, seed, prev.used, |s|);
        Grouping(prev.groups + [group], prev.used + Elems(group))
  }

  /** Python's `min` and `max` over a non-empty list. */
  function Minimum(xs: seq<int>): (m: int)
    requires |xs| > 0
    ensures exists k :: 0 <= k < |xs| && m == xs[k]
    ensures forall k :: 0 <= k < |xs| ==> m <= xs[k]
  {
    if |xs| == 1 then xs[0]
    else
      var p := Minimum(xs[..|xs| - 1]);
      assert forall k :: 0 <= k < |xs| - 1 ==> xs[..|xs| - 1][k] == xs[k];
      Min(p, xs[|xs| - 1])
  }

  function Maximum(xs: seq<int>): (m: int)
    requires |xs| > 0
    ensures exists k :: 0 <= k < |xs| && m == xs[k]
    ensures forall k :: 0 <= k < |xs| ==> xs[k] <= m
  {
    if |xs| == 1 then xs[0]
    else
      var p := Maximum(xs[..|xs| - 1]);
      assert forall k :: 0 <= k < |xs| - 1 ==> xs[..|xs| - 1][k] == xs[k];
      Max(p, xs[|xs| - 1])
  }

  /** `min(all_x)`, `min(all_y)`, and the widths reaching `max(all_x_end)` and `max(all_y_end)`. */
  function Union(bs: seq<Box>): (u: Box)
    requires |bs| > 0
  {
    var x := Minimum(seq(|bs|, k requires 0 <= k < |bs| => bs[k].x));
    var y := Minimum(seq(|bs|, k requires 0 <= k < |bs| => bs[k].y));
    var xEnd := Maximum(seq(|bs|, k requires 0 <= k < |bs| => bs[k].x + bs[k].w));
    var yEnd := Maximum(seq(|bs|, k requires 0 <= k < |bs| => bs[k].y + bs[k].h));
    Box(x, y, xEnd - x, yEnd - y)
  }

  /** The union contains every member box. */
  lemma UnionContains(bs: seq<Box>, k: nat)
    requires k < |bs|
    ensures Union(bs).x <= bs[k].x && Union(bs).y <= bs[k].y
    ensures bs[k].x + bs[k].w <= Union(bs).x + Union(bs).w && bs[k].y + bs[k].h <= Union(bs).y + Union(bs).h
  {
    var xs := seq(|bs|, k requires 0 <= k < |bs| => bs[k].x);
    var ys := seq(|bs|, k requires 0 <= k < |bs| => bs[k].y);
    var xEnds := seq(|bs|, k requires 0 <= k < |bs| => bs[k].x + bs[k].w);
    var yEnds := seq(|bs|, k requires 0 <= k < |bs| => bs[k].y + bs[k].h);
    assert xs[k] == bs[k].x && ys[k] == bs[k].y && xEnds[k] == bs[k].x + bs[k].w && yEnds[k] == bs[k].y + bs[k].h;
  }

  /** The union is the smallest such box: each of its edges is some member's edge. */
  lemma UnionTight(bs: seq<Box>)
    requires |bs| > 0
    ensures exists k :: 0 <= k < |bs| && Union(bs).x == bs[k].x
    ensures exists k :: 0 <= k < |bs| && Union(bs).y == bs[k].y
    ensures exists k :: 0 <= k < |bs| && Union(bs).x + Union(bs).w == bs[k].x + bs[k].w
    ensures exists k :: 0 <= k < |bs| && Union(bs).y + Union(bs).h == bs[k].y + bs[k].h
  {
    var xs := seq(|bs|, k requires 0 <= k < |bs| => bs[k].x);
    var ys := seq(|bs|, k requires 0 <= k < |bs| => bs[k].y);
    var xEnds := seq(|bs|, k requires 0 <= k < |bs| => bs[k].x + bs[k].w);
    var yEnds := seq(|bs|, k requires 0 <= k < |bs| => bs[k].y + bs[k].h);
    var kx :| 0 <= kx < |bs| && Minimum(xs) == xs[kx];
    var ky :| 0 <= ky < |bs| && Minimum(ys) == ys[ky];
    var kxe :| 0 <= kxe < |bs| && Maximum(xEnds) == xEnds[kxe];
    var kye :| 0 <= kye < |bs| && Maximum(yEnds) == yEnds[kye];
    assert Union(bs).x == bs[kx].x;
    assert Union(bs).y == bs[ky].y;
    assert Union(bs).x + Union(bs).w == bs[kxe].x + bs[kxe].w;
    assert Union(bs).y + Union(bs).h == bs[kye].y + bs[kye].h;
  }

  function BoxesAt(s: seq<Box>, group: seq<nat>): (bs: seq<Box>)
    requires forall m :: 0 <= m < |group| ==> group[m] < |s|
    ensures |bs| == |group|
  {
    seq(|group|, m requires 0 <= m < |group| => s[group[m]])
  }

  /** The box of one group: the union of its members, padded by 10 and clamped. */
  function GroupRegion(s: seq<Box>, group: seq<nat>, imgW: int, imgH: int): Box
    requires |group| > 0 && forall m :: 0 <= m < |group| ==> group[m] < |s|
  {
    Clamp(Union(BoxesAt(s, group)), GroupPadding, imgW, imgH)
  }

  /** The boxes of `groups`, in order, dropping those not larger than 5 by 5. */
  function GroupRegions(s: seq<Box>, groups: seq<seq<nat>>, imgW: int, imgH: int): (r: seq<Box>)
    requires GroupsWithin(groups, |s|)
    ensures |r| <= |groups|
    ensures forall b :: b in r ==> InBounds(b, imgW, imgH) && Large(b)
    decreases |groups|
  {
    if |groups| == 0 then []
    else
      var n := |groups| - 1;
      var c := GroupRegion(s, groups[n], imgW, imgH);
      GroupRegions(s, groups[..n], imgW, imgH) + (if Large(c) then [c] else [])
  }

  function BoxesOf(found: seq<Found>): (s: seq<Box>)
    ensures |s| == |found|
  {
    seq(|found|, k requires 0 <= k < |found| => found[k].box)
  }

  /** What `_group_nearby_boxes` returns for `found` in an `imgW`-by-`imgH` image. */
  function GroupNearby(found: seq<Found>, imgW: int, imgH: int): (r: seq<Box>)
    ensures |r| <= |found|
    ensures forall b :: b in r ==> InBounds(b, imgW, imgH) && Large(b)
  {
    var s := BoxesOf(SortByPosition(found));
    GroupRegions(s, GroupsUpTo(s, |s|).groups, imgW, imgH)
  }

  /** A new group takes only indices no earlier group used. */
  lemma JoinersUnused(s: seq<Box>, seed: nat, used: set<nat>)
    requires seed < |s| && seed !in used
    ensures forall j :: j in [seed] + Joiners(s, seed, used, |s|) ==> j !in used
  {
    forall j | j in [seed] + Joiners(s, seed, used, |s|)
      ensures j !in used
    {
      if j != seed {
        JoinersIff(s, seed, used, |s|, j);
      }
    }
  }

  /** The indices of all the groups. */
  function Covered(gs: seq<seq<nat>>): (c: set<nat>)
    decreases |gs|
  {
    if |gs| == 0 then {} else Covered(gs[..|gs| - 1]) + Elems(gs[|gs| - 1])
  }

  /** Each group shares no index with the groups before it. */
  ghost predicate Disjoint(gs: seq<seq<nat>>)
    decreases |gs|
  {
    |gs| == 0 || (Disjoint(gs[..|gs| - 1]) && Elems(gs[|gs| - 1]) * Covered(gs[..|gs| - 1]) == {})
  }

  /** `used` is the union of the groups, and the groups are disjoint. */
  ghost predicate Partitioned(r: Grouping)
  {
    r.used == Covered(r.groups) && Disjoint(r.groups)
  }

  lemma {:induction false} CoveredIff(gs: seq<seq<nat>>, k: nat)
    ensures k in Covered(gs) <==> exists g :: 0 <= g < |gs| && k in gs[g]
    decreases |gs|
  {
    if |gs| > 0 {
      var p := gs[..|gs| - 1];
      CoveredIff(p, k);
      if k in Covered(p) {
        var g :| 0 <= g < |p| && k in p[g];
        assert gs[g] == p[g];
      } else if k in gs[|gs| - 1] {
        assert k in Elems(gs[|gs| - 1]);
      } else {
        forall g | 0 <= g < |gs|
          ensures k !in gs[g]
        {
          if g < |p| {
            assert gs[g] == p[g];
          }
        }
      }
    }
  }

  /** In disjoint groups an index in an earlier group is in no later one. */
  lemma {:induction false} DisjointApart(gs: seq<seq<nat>>, g1: nat, g2: nat, k: nat)
    requires Disjoint(gs) && g1 < g2 < |gs| && k in gs[g1]
    ensures k !in gs[g2]
    decreases |gs|
  {
    var p := gs[..|gs| - 1];
    assert gs[g1] == p[g1];
    if g2 < |p| {
      assert gs[g2] == p[g2];
      DisjointApart(p, g1, g2, k);
    } else {
      CoveredIff(p, k);
      assert g2 == |gs| - 1;
      assert Elems(gs[g2]) * Covered(p) == {};
      assert k !in Elems(gs[g2]) * Covered(p);
    }
  }

  /** Adding a group none of whose indices is used yet keeps the groups a partition of `used`. */
  lemma PartitionExtend(prev: Grouping, group: seq<nat>)
    requires Partitioned(prev)
    requires forall j :: j in group ==> j !in prev.used
    ensures Partitioned(Grouping(prev.groups + [group], prev.used + Elems(group)))
  {
    var gs := prev.groups + [group];
    assert gs[..|gs| - 1] == prev.groups;
  }

  /** The groups partition `used`: it is their union, and no index is in two groups. */
  lemma {:induction false} GroupsPartition(s: seq<Box>, i: nat)
    requires i <= |s|
    ensures Partitioned(GroupsUpTo(s, i))
    decreases i
  {
    if i > 0 {
      GroupsPartition(s, i - 1);
      if i - 1 !in GroupsUpTo(s, i - 1).used {
        NewGroupPartitioned(s, i);
      } else {
        UsedSeedSkipped(s, i);
      }
    }
  }

  /** The group grown by the unused seed `i - 1` keeps the groups a partition. */
  lemma NewGroupPartitioned(s: seq<Box>, i: nat)
    requires 0 < i <= |s|
    requires Partitioned(GroupsUpTo(s, i - 1)) && i - 1 !in GroupsUpTo(s, i - 1).used
    ensures Partitioned(GroupsUpTo(s, i))
  {
    var seed := i - 1;
    var prev := GroupsUpTo(s, seed);
    var group := [seed] + Joiners(s, seed, prev.used, |s|);
    assert GroupsUpTo(s, i) == Grouping(prev.groups + [group], prev.used + Elems(group));
    JoinersUnused(s, seed, prev.used);
    PartitionExtend(prev, group);
  }

  /** Every visited seed is used, by its own group or by an earlier one. */
  lemma {:induction false} GroupsCover(s: seq<Box>, i: nat)
    requires i <= |s|
    ensures forall k :: 0 <= k < i ==> k in GroupsUpTo(s, i).used
    decreases i
  {
    if i > 0 {
      GroupsCover(s, i - 1);
      var prev := GroupsUpTo(s, i - 1);
      var seed := i - 1;
      if seed !in prev.used {
        var group := [seed] + Joiners(s, seed, prev.used, |s|);
        var r := Grouping(prev.groups + [group], prev.used + Elems(group));
        assert GroupsUpTo(s, i) == r;
        assert seed in r.used;
        assert prev.used <= r.used;
      } else {
        UsedSeedSkipped(s, i);
      }
    }
  }

  /** Each sorted box lies in exactly one group. */
  lemma EachBoxInOneGroup(s: seq<Box>, k: nat)
    requires k < |s|
    ensures exists g :: 0 <= g < |GroupsUpTo(s, |s|).groups| && k in GroupsUpTo(s, |s|).groups[g]
    ensures forall g1, g2 ::
      (0 <= g1 < |GroupsUpTo(s, |s|).groups| && 0 <= g2 < |GroupsUpTo(s, |s|).groups|
       && k in GroupsUpTo(s, |s|).groups[g1] && k in GroupsUpTo(s, |s|).groups[g2]) ==> g1 == g2
  {
    GroupsPartition(s, |s|);
    GroupsCover(s, |s|);
    var groups := GroupsUpTo(s, |s|).groups;
    CoveredIff(groups, k);
    forall g1, g2 | 0 <= g1 < |groups| && 0 <= g2 < |groups|
      ensures k in groups[g1] && k in groups[g2] ==> g1 == g2
    {
      if g1 < g2 && k in groups[g1] {
        DisjointApart(groups, g1, g2, k);
      } else if g2 < g1 && k in groups[g2] {
        DisjointApart(groups, g2, g1, k);
      }
    }
  }

  /**
   * A seed not used by an earlier group starts a group, and another box
   * joins it iff no earlier group took it and it is on the seed's line
   * within 150 pixels of the seed's right edge.
   */
  lemma SeedGroup(s: seq<Box>, i: nat, k: nat)
    requires i < |s| && i !in GroupsUpTo(s, i).used && k != i
    ensures |GroupsUpTo(s, i + 1).groups| == |GroupsUpTo(s, i).groups| + 1
    ensures GroupsUpTo(s, i + 1).groups[|GroupsUpTo(s, i).groups|][0] == i
    ensures k in GroupsUpTo(s, i + 1).groups[|GroupsUpTo(s, i).groups|] <==>
      k < |s| && k !in GroupsUpTo(s, i).used && Joins(s[i], s[k])
  {
    JoinersIff(s, i, GroupsUpTo(s, i).used, |s|, k);
  }

  /** The two words of the example, sorted and then grouped: one group holding both. */
  lemma RemindMeGroups(s: seq<Box>)
    requires s == [Box(10, 10, 50, 20), Box(65, 10, 30, 20)]
    ensures GroupsUpTo(s, |s|).groups == [[0, 1]]
  {
    assert Joins(s[0], s[1]);
    assert Joiners(s, 0, {}, 1) == [];
    assert Joiners(s, 0, {}, 2) == [1];
    assert GroupsUpTo(s, 0) == Grouping([], {});
    var g1 := GroupsUpTo(s, 1);
    assert [0] + [1] == [0, 1];
    assert g1 == Grouping([] + [[0, 1]], {} + Elems([0, 1]));
    assert [] + [[0, 1]] == [[0, 1]];
    assert 1 in g1.used;
    assert GroupsUpTo(s, 2) == g1;
    assert |s| == 2;
  }

  /** "Remind" at (10, 10, 50, 20) and "Me" at (65, 10, 30, 20) merge into (0, 0, 105, 40). */
  lemma RemindMe(c1: int, c2: int, imgW: int, imgH: int)
    requires imgW >= 105 && imgH >= 40
    ensures GroupNearby([Found("Remind", Box(10, 10, 50, 20), c1), Found("Me", Box(65, 10, 30, 20), c2)], imgW, imgH)
      == [Box(0, 0, 105, 40)]
  {
    var remind := Found("Remind", Box(10, 10, 50, 20), c1);
    var me := Found("Me", Box(65, 10, 30, 20), c2);
    RemindMeSorted(remind, me);
    var s := BoxesOf([remind, me]);
    assert s == [remind.box, me.box];
    RemindMeGroups(s);
    RemindMeRegions(s, imgW, imgH);
  }

  /** The two words are already in reading order. */
  lemma RemindMeSorted(remind: Found, me: Found)
    requires remind.box == Box(10, 10, 50, 20) && me.box == Box(65, 10, 30, 20)
    ensures SortByPosition([remind, me]) == [remind, me]
  {
    var found := [remind, me];
    assert found[..1] == [remind];
    assert SortByPosition([remind]) == [remind];
    assert SortByPosition(found) == Insert([remind], me) == [remind, me];
  }

  /** The one group of the example, padded by 10 and clamped, is (0, 0, 105, 40). */
  lemma RemindMeRegions(s: seq<Box>, imgW: int, imgH: int)
    requires s == [Box(10, 10, 50, 20), Box(65, 10, 30, 20)]
    requires imgW >= 105 && imgH >= 40
    ensures GroupRegions(s, [[0, 1]], imgW, imgH) == [Box(0, 0, 105, 40)]
  {
    var bs := BoxesAt(s, [0, 1]);
    assert bs == [s[0], s[1]];
    assert Union(bs) == Box(10, 10, 85, 20);
    assert GroupRegion(s, [0, 1], imgW, imgH) == Box(0, 0, 105, 40);
    assert [[0, 1]][..0] == [];
  }

  /** The group seeded at `i` after the inner loop has looked at the indices below `j`. */
  ghost predicate GrowingGroup(boxes: seq<Box>, i: nat, usedBefore: set<nat>, j: nat, group: seq<Box>, members: seq<nat>, used: set<nat>)
    requires i < |boxes| && j <= |boxes|
  {
    && members == [i] + Joiners(boxes, i, usedBefore, j)
    && |group| == |members|
    && (forall m :: 0 <= m < |members| ==> group[m] == boxes[members[m]])
    && used == usedBefore + Elems(members)
  }

  /** One pass of the inner loop of `_group_nearby_boxes`: box `j` joins the group when it is unused and close to the seed's box. */
  method JoinStep(boxes: seq<Box>, i: nat, usedBefore: set<nat>, j: nat, group: seq<Box>, ghost members: seq<nat>, used: set<nat>)
    returns (group': seq<Box>, ghost members': seq<nat>, used': set<nat>)
    requires i < |boxes| && j < |boxes| && i !in usedBefore
    requires GrowingGroup(boxes, i, usedBefore, j, group, members, used)
    ensures GrowingGroup(boxes, i, usedBefore, j + 1, group', members', used')
  {
    group', members', used' := group, members, used;
    JoinersIff(boxes, i, usedBefore, j, j);
    assert j in used <==> j in usedBefore || j == i;
    if j !in used && j != i {
      var b1 := boxes[i];
      var b2 := boxes[j];
      if Abs(b1.y - b2.y) <= Max(b1.h, b2.h) && Abs(b2.x - (b1.x + b1.w)) < MaxDistance * 3 {
        assert Elems(members + [j]) == Elems(members) + {j};
        group' := group + [b2];
        members' := members + [j];
        used' := used + {j};
      }
    }
  }

  /** The inner loop of `_group_nearby_boxes`: grow the group seeded at `i` over every index of the sorted boxes. */
  method GrowGroup(boxes: seq<Box>, i: nat, usedBefore: set<nat>) returns (group: seq<Box>, ghost members: seq<nat>, used: set<nat>)
    requires i < |boxes| && i !in usedBefore
    ensures members == [i] + Joiners(boxes, i, usedBefore, |boxes|)
    ensures group == BoxesAt(boxes, members)
    ensures used == usedBefore + Elems(members)
  {
    group := [boxes[i]];
    members := [i];
    used := usedBefore + {i};
    assert Elems([i]) == {i};
    var j := 0;
    while j < |boxes|
      invariant 0 <= j <= |boxes|
      invariant GrowingGroup(boxes, i, usedBefore, j, group, members, used)
    {
      group, members, used := JoinStep(boxes, i, usedBefore, j, group, members, used);
      j := j + 1;
    }
    assert group == BoxesAt(boxes, members);
  }

  /** `_group_nearby_boxes`: sort, then grow one group per unused seed, then pad and clamp each group's box. */
  method GroupNearbyBoxes(found: seq<Found>, imgW: int, imgH: int) returns (regions: seq<Box>)
    ensures regions == GroupNearby(found, imgW, imgH)
  {
    if |found| == 0 {
      return [];
    }
    var boxes := BoxesOf(SortByPosition(found));
    regions := GroupBoxes(boxes, imgW, imgH);
  }

  /** The outer loop over the sorted boxes, one seed at a time. */
  method GroupBoxes(boxes: seq<Box>, imgW: int, imgH: int) returns (regions: seq<Box>)
    ensures regions == GroupRegions(boxes, GroupsUpTo(boxes, |boxes|).groups, imgW, imgH)
  {
    regions := [];
    var used: set<nat> := {};
    ghost var groups: seq<seq<nat>> := [];
    var i := 0;
    while i < |boxes|
      invariant 0 <= i <= |boxes|
      invariant GroupsUpTo(boxes, i) == Grouping(groups, used)
      invariant regions == GroupRegions(boxes, groups, imgW, imgH)
    {
      regions, used, groups := Visit(boxes, i, used, groups, regions, imgW, imgH);
      i := i + 1;
    }
  }

  /** One pass of that loop: a seed no earlier group took grows a group of its own. */
  method Visit(boxes: seq<Box>, i: nat, used: set<nat>, ghost groups: seq<seq<nat>>, regions: seq<Box>, imgW: int, imgH: int)
    returns (nextRegions: seq<Box>, nextUsed: set<nat>, ghost nextGroups: seq<seq<nat>>)
    requires i < |boxes|
    requires GroupsUpTo(boxes, i) == Grouping(groups, used)
    requires regions == GroupRegions(boxes, groups, imgW, imgH)
    ensures GroupsUpTo(boxes, i + 1) == Grouping(nextGroups, nextUsed)
    ensures nextRegions == GroupRegions(boxes, nextGroups, imgW, imgH)
  {
    if i !in used {
      nextRegions, nextUsed, nextGroups := GrowFrom(boxes, i, used, groups, regions, imgW, imgH);
    } else {
      assert GroupsUpTo(boxes, i + 1) == GroupsUpTo(boxes, i);
      nextRegions, nextUsed, nextGroups := regions, used, groups;
    }
  }

  /** A seed an earlier group took starts no group of its own. */
  lemma UsedSeedSkipped(s: seq<Box>, i: nat)
    requires 0 < i <= |s| && i - 1 in GroupsUpTo(s, i - 1).used
    ensures GroupsUpTo(s, i) == GroupsUpTo(s, i - 1)
  {
  }

  /** One unused seed of that loop: its group is grown, and its padded box kept when large enough. */
  method GrowFrom(boxes: seq<Box>, i: nat, used: set<nat>, ghost groups: seq<seq<nat>>, regions: seq<Box>, imgW: int, imgH: int)
    returns (nextRegions: seq<Box>, nextUsed: set<nat>, ghost nextGroups: seq<seq<nat>>)
    requires i < |boxes| && i !in used
    requires GroupsUpTo(boxes, i) == Grouping(groups, used)
    requires regions == GroupRegions(boxes, groups, imgW, imgH)
    ensures GroupsUpTo(boxes, i + 1) == Grouping(nextGroups, nextUsed)
    ensures nextRegions == GroupRegions(boxes, nextGroups, imgW, imgH)
  {
    var group;
    ghost var members;
    group, members, nextUsed := GrowGroup(boxes, i, used);
    nextGroups := groups + [members];
    assert GroupsUpTo(boxes, i + 1) == Grouping(nextGroups, nextUsed);
    var region := Clamp(Union(group), GroupPadding, imgW, imgH);
    assert nextGroups[..|groups|] == groups;
    nextRegions := regions;
    if region.w > 5 && region.h > 5 {
      nextRegions := regions + [region];
    }
  }

  // ------------------------------------------------------- specific word

  /** The regions `detect_specific_word` returns. */
  function SpecificWord(lib: Library, tesseract: bool, image: Option<Image>, targetWord: string, threshold: int, caseSensitive: bool, exact: bool): (r: seq<Box>)
    ensures !tesseract || image.None? || AllSpace(targetWord) ==> r == []
    ensures image.Some? ==> forall b :: b in r ==> InBounds(b, image.value.w, image.value.h) && Large(b)
  {
    if !tesseract || image.None? || AllSpace(targetWord) then []
    else
      match lib.ocr(PreprocessedPsm6, image.value)
      case None => []
      case Some(entries) =>
        var q := Prepare(targetWord, threshold, caseSensitive, exact);
        var found := Matched(entries, q);
        if |found| > 1 && |q.words| > 1 then GroupNearby(found, image.value.w, image.value.h)
        else PadEach(found, image.value.w, image.value.h)
  }

  /** The single-word path: pad and clamp each match. */
  method PadMatches(found: seq<Found>, imgW: int, imgH: int) returns (regions: seq<Box>)
    ensures regions == PadEach(found, imgW, imgH)
  {
    regions := [];
    var k := 0;
    while k < |found|
      invariant 0 <= k <= |found|
      invariant regions == PadEach(found[..k], imgW, imgH)
    {
      var c := Clamp(found[k].box, WordPadding, imgW, imgH);
      assert found[..k + 1][..k] == found[..k];
      if c.w > 5 && c.h > 5 {
        regions := regions + [c];
      }
      k := k + 1;
    }
    assert found[..|found|] == found;
  }

  /** `detect_specific_word`. */
  method DetectSpecificWord(lib: Library, tesseract: bool, image: Option<Image>, targetWord: string, threshold: int, caseSensitive: bool, exact: bool)
    returns (regions: seq<Box>)
    ensures regions == SpecificWord(lib, tesseract, image, targetWord, threshold, caseSensitive, exact)
  {
    if !tesseract || image.None? || AllSpace(targetWord) {
      return [];
    }
    var img := image.value;
    var data := lib.ocr(PreprocessedPsm6, img);
    if data.None? {
      return [];
    }
    var q := Prepare(targetWord, threshold, caseSensitive, exact);
    var found := MatchEntries(data.value, q);
    if |found| > 1 && |q.words| > 1 {
      regions := GroupNearbyBoxes(found, img.w, img.h);
    } else {
      regions := PadMatches(found, img.w, img.h);
    }
  }

  // ------------------------------------------------------- multiple words

  /**
   * `results` holds, under distinct keys, exactly the words of `words` for
   * which `find` reports something, each with what it reports.
   */
  ghost predicate Reports(results: seq<(string, seq<Box>)>, words: seq<string>, find: string -> seq<Box>)
  {
    && DistinctKeys(results)
    && (forall p :: p in results ==> p.0 in words && p.1 == find(p.0) && p.1 != [])
    && (forall w :: w in words && find(w) != [] ==> exists p :: p in results && p.0 == w)
  }

  /** One pass of the loop of `detect_multiple_words` keeps `Reports`. */
  lemma ReportsStep(results: seq<(string, seq<Box>)>, words: seq<string>, word: string, find: string -> seq<Box>)
    requires Reports(results, words, find)
    ensures find(word) != [] ==> Reports(Put(results, word, find(word)), words + [word], find)
    ensures find(word) == [] ==> Reports(results, words + [word], find)
  {
    if find(word) != [] {
      PutSpec(results, word, find(word));
    }
  }

  /** `detect_multiple_words`: each word found at least once, mapped to its regions (default case folding and partial matching). */
  method DetectMultipleWords(lib: Library, tesseract: bool, image: Option<Image>, wordList: seq<string>, threshold: int)
    returns (results: seq<(string, seq<Box>)>)
    ensures DistinctKeys(results)
    ensures forall p :: p in results ==>
      p.0 in wordList && p.1 == SpecificWord(lib, tesseract, image, p.0, threshold, false, false) && p.1 != []
    ensures forall w :: w in wordList && SpecificWord(lib, tesseract, image, w, threshold, false, false) != [] ==>
      exists p :: p in results && p.0 == w
  {
    ghost var find := w => SpecificWord(lib, tesseract, image, w, threshold, false, false);
    results := [];
    var i := 0;
    while i < |wordList|
      invariant 0 <= i <= |wordList|
      invariant Reports(results, wordList[..i], find)
    {
      var word := wordList[i];
      var regions := DetectSpecificWord(lib, tesseract, image, word, threshold, false, false);
      ReportsStep(results, wordList[..i], word, find);
      assert wordList[..i + 1] == wordList[..i] + [word];
      if regions != [] {
        results := Put(results, word, regions);
      }
      i := i + 1;
    }
    assert wordList[..|wordList|] == wordList;
  }

  // --------------------------------------------------------------- all text

  /** The tests of `detect_all_text` and `get_detected_text`: non-blank text and an integer confidence strictly over the threshold. */
  predicate Confident(e: OcrEntry, threshold: int)
  {
    Strip(e.text) != [] && e.conf.ConfInt? && e.conf.value > threshold
  }

  /** The boxes `detect_all_text` keeps: confident entries wider and taller than 10. */
  function AllTextBoxes(entries: seq<OcrEntry>, threshold: int): (r: seq<Box>)
    ensures |r| <= |entries|
    ensures forall b :: b in r <==>
      exists i :: 0 <= i < |entries| && Confident(entries[i], threshold) && entries[i].width > 10 && entries[i].height > 10 && b == EntryBox(entries[i])
    decreases |entries|
  {
    if |entries| == 0 then []
    else
      var e := entries[|entries| - 1];
      AllTextBoxes(entries[..|entries| - 1], threshold) + (if Confident(e, threshold) && e.width > 10 && e.height > 10 then [EntryBox(e)] else [])
  }

  /** The records `get_detected_text` keeps: every confident entry, with its stripped text. */
  function DetectedWords(entries: seq<OcrEntry>, threshold: int): (r: seq<Found>)
    ensures |r| <= |entries|
  {
    Records(entries, e => Confident(e, threshold))
  }

  /** Here the threshold is exclusive: an entry whose confidence equals it is dropped. */
  lemma ThresholdExclusive(entries: seq<OcrEntry>, threshold: int, f: Found)
    requires f in DetectedWords(entries, threshold)
    ensures f.conf > threshold
  {
    var i :| 0 <= i < |entries| && Confident(entries[i], threshold) && entries[i].conf.ConfInt? && f == FoundOf(entries[i]);
  }

  /** `detect_all_text`. */
  method DetectAllText(lib: Library, tesseract: bool, image: Option<Image>, threshold: int) returns (regions: seq<Box>)
    ensures !tesseract || image.None? ==> regions == []
    ensures tesseract && image.Some? ==>
      regions == match lib.ocr(PreprocessedDefault, image.value) case None => [] case Some(entries) => AllTextBoxes(entries, threshold)
  {
    if !tesseract || image.None? {
      return [];
    }
    var data := lib.ocr(PreprocessedDefault, image.value);
    if data.None? {
      return [];
    }
    var entries := data.value;
    regions := [];
    var i := 0;
    while i < |entries|
      invariant 0 <= i <= |entries|
      invariant regions == AllTextBoxes(entries[..i], threshold)
    {
      var e := entries[i];
      assert entries[..i + 1][..i] == entries[..i];
      var text := Strip(e.text);
      if text != [] && e.conf.ConfInt? {
        if e.conf.value > threshold && e.width > 10 && e.height > 10 {
          regions := regions + [EntryBox(e)];
        }
      }
      i := i + 1;
    }
    assert entries[..|entries|] == entries;
  }

  /** `get_detected_text`. */
  method GetDetectedText(lib: Library, tesseract: bool, image: Option<Image>, threshold: int) returns (results: seq<Found>)
    ensures !tesseract || image.None? ==> results == []
    ensures tesseract && image.Some? ==>
      results == match lib.ocr(PreprocessedDefault, image.value) case None => [] case Some(entries) => DetectedWords(entries, threshold)
  {
    if !tesseract || image.None? {
      return [];
    }
    var data := lib.ocr(PreprocessedDefault, image.value);
    if data.None? {
      return [];
    }
    var entries := data.value;
    results := [];
    var i := 0;
    while i < |entries|
      invariant 0 <= i <= |entries|
      invariant results == DetectedWords(entries[..i], threshold)
    {
      var e := entries[i];
      assert entries[..i + 1][..i] == entries[..i];
      var text := Strip(e.text);
      if text != [] && e.conf.ConfInt? && e.conf.value > threshold {
        results := results + [Found(text, EntryBox(e), e.conf.value)];
      }
      i := i + 1;
    }
    assert entries[..|entries|] == entries;
  }
}
