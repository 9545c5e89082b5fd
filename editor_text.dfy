/**
 * The editor's operations on a text and a cursor, as values: the word
 * before the cursor, deleting it, the cursor moves and deletions, the
 * history walks, the incremental-search placement, the completion list
 * and the search prompt.  `Editors.Editor` is specified with these.
 */
module EditorText {
  import opened Common
  import opened Buffers
  import Cursors
  import EditorRules
  import opened Histories
  import Util
  import Terminals
  import Terms

  type Span = EditorRules.Span

  // ---------------------------------------------------------------------
  // The word before the cursor

  /**
   * `get_word_before_cursor` on the default divider's words: the word the
   * cursor is inside or at the end of; with `ignore` set, also the nearest
   * word left of the space the cursor is in or left of the word it starts.
   */
  function WordBeforeCursor(t: Text, c: nat, ignore: bool): (r: Option<Span>)
    ensures r.Some? ==> r.value in EditorRules.Words(t) && r.value.0 < c
    ensures r.Some? ==> r.value.0 < r.value.1 <= |t|
  {
    var words := EditorRules.Words(t);
    EditorRules.WordsAreWords(t);
    Cursors.DividedWordsAreSpaced(t);
    Cursors.PositionTable(c, words);
    match Cursors.Position(c, words)
    case InWord(i) => Some(words[i])
    case InSpace(Some(i), _) => if ignore then Some(words[i]) else None
    case InSpace(None, _) => None
    case OnWordLeftEdge(i) =>
      if ignore && i > 0 then
        Cursors.OrderedApart(words, i - 1, i);
        Some(words[i - 1])
      else None
    case OnWordRightEdge(i) => Some(words[i])
  }

  /** The part of the word before the cursor that `complete` completes: "" when there is no such word. */
  function WordToComplete(t: Text, c: nat): (r: Text)
    ensures var w := WordBeforeCursor(t, c, false);
      (w.None? ==> r == []) && (w.Some? ==> r == t[w.value.0..w.value.1])
  {
    match WordBeforeCursor(t, c, false)
    case None => []
    case Some((start, end)) => t[start..end]
  }

  /**
   * Without `ignore`, the word found is the one with the cursor strictly
   * after its start and at most at its end, and there is one exactly when
   * such a word exists.
   */
  lemma WordAroundCursor(t: Text, c: nat)
    ensures var words := EditorRules.Words(t);
      var r := WordBeforeCursor(t, c, false);
      (r.Some? <==> exists j | 0 <= j < |words| :: words[j].0 < c <= words[j].1) &&
      (r.Some? ==> r.value.0 < c <= r.value.1)
  {
    var words := EditorRules.Words(t);
    Cursors.DividedWordsAreSpaced(t);
    Cursors.PositionTable(c, words);
    WordsApart(words);
  }

  /** With `ignore`, the word found is the last one starting before the cursor, and there is one exactly when some word does. */
  lemma LastWordStartedBefore(t: Text, c: nat)
    ensures var words := EditorRules.Words(t);
      var r := WordBeforeCursor(t, c, true);
      (r.Some? <==> exists j | 0 <= j < |words| :: words[j].0 < c) &&
      (r.Some? ==> forall j | 0 <= j < |words| && words[j].0 < c :: words[j].0 <= r.value.0)
  {
    LastWordFound(t, c);
    LastWordIsLast(t, c);
  }

  /** With `ignore`, a word is found exactly when some word starts before the cursor. */
  lemma LastWordFound(t: Text, c: nat)
    ensures var words := EditorRules.Words(t);
      WordBeforeCursor(t, c, true).Some? <==> exists j | 0 <= j < |words| :: words[j].0 < c
  {
    var words := EditorRules.Words(t);
    Cursors.DividedWordsAreSpaced(t);
    Cursors.PositionTable(c, words);
    WordsApart(words);
  }

  /** With `ignore`, no word starting before the cursor starts after the one found. */
  lemma LastWordIsLast(t: Text, c: nat)
    ensures var words := EditorRules.Words(t);
      var r := WordBeforeCursor(t, c, true);
      r.Some? ==> forall j | 0 <= j < |words| && words[j].0 < c :: words[j].0 <= r.value.0
  {
    var words := EditorRules.Words(t);
    Cursors.DividedWordsAreSpaced(t);
    Cursors.PositionTable(c, words);
    WordsApart(words);
  }

  /** In spaced words, an earlier word ends, and starts, before a later one starts. */
  lemma WordsApart(words: seq<Span>)
    requires Cursors.Spaced(words)
    ensures forall j, k | 0 <= j < k < |words| :: words[j].1 < words[k].0 && words[j].0 < words[k].0
  {
    forall j, k | 0 <= j < k < |words| ensures words[j].1 < words[k].0 && words[j].0 < words[k].0 {
      Cursors.OrderedApart(words, j, k);
    }
  }

  /** A removal that starts before the cursor is always allowed. */
  lemma RemoveBeforeOk(t: Text, start: nat, c: nat)
    requires start < c
    ensures RemoveRawOk(t, start, c)
  {
  }

  /**
   * `delete_word_before_cursor`: remove from the start of the word before
   * the cursor up to the cursor, and step the cursor back by what went.
   */
  function WordDeleted(t: Text, c: nat, ignore: bool): (r: (Text, nat))
    ensures r.1 <= c
  {
    match WordBeforeCursor(t, c, ignore)
    case None => (t, c)
    case Some((start, _)) =>
      var rest := RemoveRawText(t, start, c);
      assert |t| - |rest| <= c by { RemovedText(t, start, c); }
      (rest, c - (|t| - |rest|))
  }

  /** How much `remove_raw` takes out: the clamped range, and the text is what surrounds it. */
  lemma RemovedText(s: Text, start: nat, end: nat)
    requires RemoveRawOk(s, start, end)
    ensures var r := RemoveRawText(s, start, end);
      (start < |s| && start < end ==>
        r == s[..start] + s[Min(end, |s|)..] && |s| - |r| == Min(end, |s|) - start) &&
      (start >= end || start >= |s| ==> r == s)
  {
  }

  /** With the cursor inside the text, deleting the word before it keeps what surrounds the deleted part, and the cursor lands where the word started. */
  lemma WordDeletedShape(t: Text, c: nat, ignore: bool)
    requires c <= |t|
    ensures var w := WordBeforeCursor(t, c, ignore);
      var r := WordDeleted(t, c, ignore);
      (w.None? ==> r == (t, c)) &&
      (w.Some? ==> r == (t[..w.value.0] + t[c..], w.value.0))
  {
    var w := WordBeforeCursor(t, c, ignore);
    if w.Some? {
      RemovedText(t, w.value.0, c);
    }
  }

  // ---------------------------------------------------------------------
  // Edits at the cursor

  /** Inserting a character and deleting the one before the cursor that follows gives the text back. */
  lemma InsertThenDeleteBefore(t: Text, c: nat, ch: char)
    requires c <= |t|
    ensures RemoveRawText(InsertRawText(t, c, [ch]), c, c + 1) == t
  {
    var s := InsertRawText(t, c, [ch]);
    RemovedText(s, c, c + 1);
    assert s[..c] + s[c + 1..] == t;
  }

  /**
   * `delete_until` removes everything between the cursor and the position,
   * `delete_until_inclusive` also the unit at the larger of the two.
   */
  lemma DeleteUntilRemovesBetween(t: Text, c: nat, p: nat)
    requires c <= |t| && p <= |t|
    ensures RemoveRawText(t, Min(c, p), Max(c, p)) == t[..Min(c, p)] + t[Max(c, p)..]
    ensures RemoveRawText(t, Min(c, p), Max(c + 1, p + 1)) == t[..Min(c, p)] + t[Min(Max(c, p) + 1, |t|)..]
  {
    RemovedText(t, Min(c, p), Max(c, p));
    RemovedText(t, Min(c, p), Max(c + 1, p + 1));
  }

  /** Moving left by `count` and then right by the same count comes back, away from the text's ends. */
  lemma LeftRightReturns(len: nat, c: nat, count: nat)
    requires count <= c <= len
    ensures var l := c - Min(count, c);
      l + Min(count, len - l) == c
  {
  }

  // ---------------------------------------------------------------------
  // History navigation

  /** Where the editor is in the history: the entry shown, and the walk over a subset when the new line is not empty. */
  datatype Place = Place(loc: Option<nat>, subset: seq<nat>, subsetLoc: Option<nat>)

  /** The entries of `get_history_subset` for a term. */
  function Subset(items: seq<HistoryItem>, ctx: Option<Text>, term: Text): seq<nat>
  {
    IndicesBelow(items, ctx, term, ContainingNotPrefix, |items|) +
    IndicesBelow(items, ctx, term, PrefixNoContext, |items|) +
    IndicesBelow(items, ctx, term, PrefixWithContext, |items|)
  }

  /** Every index of the subset names an entry containing the term. */
  lemma SubsetContainsTerm(items: seq<HistoryItem>, ctx: Option<Text>, term: Text)
    ensures var s := Subset(items, ctx, term);
      forall k | 0 <= k < |s| :: s[k] < |items| && Occurs(term, items[s[k]].buffer)
  {
    var a := IndicesBelow(items, ctx, term, ContainingNotPrefix, |items|);
    var b := IndicesBelow(items, ctx, term, PrefixNoContext, |items|);
    var c := IndicesBelow(items, ctx, term, PrefixWithContext, |items|);
    IndicesBelowExact(items, ctx, term, ContainingNotPrefix, |items|);
    IndicesBelowExact(items, ctx, term, PrefixNoContext, |items|);
    IndicesBelowExact(items, ctx, term, PrefixWithContext, |items|);
    forall k | 0 <= k < |a + b + c| ensures (a + b + c)[k] < |items| && Occurs(term, items[(a + b + c)[k]].buffer) {
      var v := (a + b + c)[k];
      assert v in a || v in b || v in c;
      if v in b || v in c {
        assert term <= items[v].buffer;
        assert OccursAt(term, items[v].buffer, 0);
      }
    }
  }

  /** `move_up` on an empty line: one entry older, from the new line to the newest entry; it stays on the oldest. */
  function HistoryUp(loc: Option<nat>, len: nat): Option<nat>
  {
    match loc
    case Some(i) => if i > 0 then Some(i - 1) else loc
    case None => if len > 0 then Some(len - 1) else None
  }

  /** `move_down` on an empty line: one entry newer, and past the newest back to the new line. */
  function HistoryDown(loc: Option<nat>, len: nat): Option<nat>
  {
    match loc
    case Some(i) => if i + 1 < len then Some(i + 1) else None
    case None => None
  }

  /**
   * On an empty line the walks undo each other: down after up returns,
   * except from the oldest entry, where up stays; up after down always
   * returns; and both stay within the history.
   */
  lemma HistoryWalkReturns(loc: Option<nat>, len: nat)
    requires loc.Some? ==> loc.value < len
    ensures var up := HistoryUp(loc, len);
      (up.Some? ==> up.value < len) && (loc != Some(0) ==> HistoryDown(up, len) == loc)
    ensures var down := HistoryDown(loc, len);
      (down.Some? ==> down.value < len) && (loc.Some? ==> HistoryUp(down, len) == loc)
  {
  }

  /** `move_up` with text on the line: the previous entry of the subset, computing the subset (and starting from its end) on the first step. */
  function SubsetUp(p: Place, items: seq<HistoryItem>, ctx: Option<Text>, term: Text): (r: Place)
    requires p.subsetLoc.Some? ==> p.subsetLoc.value < |p.subset|
    ensures r.subsetLoc.Some? ==> r.subsetLoc.value < |r.subset|
  {
    match p.subsetLoc
    case Some(i) => if i > 0 then Place(Some(p.subset[i - 1]), p.subset, Some(i - 1)) else p
    case None =>
      var s := Subset(items, ctx, term);
      if s != [] then Place(Some(s[|s| - 1]), s, Some(|s| - 1)) else Place(p.loc, s, None)
  }

  /** `move_down` with text on the line: the next entry of the subset, and past its end back to the new line. */
  function SubsetDown(p: Place): (r: Place)
    requires p.subsetLoc.Some? ==> p.subsetLoc.value < |p.subset|
    ensures r.subsetLoc.Some? ==> r.subsetLoc.value < |r.subset|
  {
    match p.subsetLoc
    case Some(i) => if i + 1 < |p.subset| then Place(Some(p.subset[i + 1]), p.subset, Some(i + 1)) else Place(None, [], None)
    case None => p
  }

  /**
   * Walking up through the subset lands on entries containing the typed
   * text, and going down again retraces the walk: down after up returns
   * to any place inside the subset but its first.
   */
  lemma SubsetWalk(p: Place, items: seq<HistoryItem>, ctx: Option<Text>, term: Text)
    requires p.subsetLoc.Some? ==> p.subsetLoc.value < |p.subset|
    requires forall k | 0 <= k < |p.subset| :: p.subset[k] < |items| && Occurs(term, items[p.subset[k]].buffer)
    requires p.subsetLoc.Some? ==> p.loc == Some(p.subset[p.subsetLoc.value])
    ensures var up := SubsetUp(p, items, ctx, term);
      (up.loc.Some? && up.loc != p.loc ==> up.loc.value < |items| && Occurs(term, items[up.loc.value].buffer)) &&
      (p.subsetLoc.Some? && p.subsetLoc.value > 0 ==> SubsetDown(up) == p)
  {
    SubsetContainsTerm(items, ctx, term);
  }

  // ---------------------------------------------------------------------
  // Incremental search

  /** `search_history_loc`: the entry the search is on, if its place is inside the subset. */
  function SearchEntry(subset: seq<nat>, subsetLoc: Option<nat>): (r: Option<nat>)
    ensures r.Some? ==> r.value in subset
  {
    if subsetLoc.Some? && subsetLoc.value < |subset| then Some(subset[subsetLoc.value]) else None
  }

  /** The first place from `k` on whose entry is at or after `t`. */
  function FirstAtLeast(index: seq<nat>, t: nat, k: nat): (r: Option<nat>)
    requires k <= |index|
    ensures r.Some? ==> k <= r.value < |index| && t <= index[r.value]
    ensures r.Some? ==> forall j | k <= j < r.value :: index[j] < t
    ensures r.None? ==> forall j | k <= j < |index| :: index[j] < t
    decreases |index| - k
  {
    if k == |index| then None
    else if t <= index[k] then Some(k)
    else FirstAtLeast(index, t, k + 1)
  }

  /**
   * Where `refresh_search` puts the search: at the newest match (the
   * oldest when searching forward), or, when a match was shown before,
   * at the first match at or after it (forward) or the last one before it.
   */
  function RefreshedLoc(target: Option<nat>, index: seq<nat>, forward: bool): (r: Option<nat>)
    ensures r.Some? <==> index != []
    ensures r.Some? ==> r.value < |index|
  {
    if index == [] then None
    else
      var fallback := if forward then 0 else |index| - 1;
      if target.None? then Some(fallback)
      else match FirstAtLeast(index, target.value, 0)
        case None => Some(fallback)
        case Some(i) => Some(if forward || target.value == index[i] || i == 0 then i else i - 1)
  }

  /** The loop of `refresh_search` that looks for the previous match in the new subset. */
  method SelectLoc(index: seq<nat>, target: Option<nat>, forward: bool) returns (loc: Option<nat>)
    ensures loc == RefreshedLoc(target, index, forward)
  {
    if index == [] {
      return None;
    }
    loc := if forward then Some(0) else Some(|index| - 1);
    if target.Some? {
      var t := target.value;
      for i := 0 to |index|
        invariant FirstAtLeast(index, t, i) == FirstAtLeast(index, t, 0)
      {
        if t <= index[i] {
          if forward || t == index[i] || i == 0 {
            loc := Some(i);
          } else {
            loc := Some(i - 1);
          }
          return;
        }
      }
    }
  }

  /**
   * On an increasing subset the search keeps its place: it stays on the
   * entry it showed when that entry still matches; forward, it moves to
   * the first later match; backward, to the last earlier one.
   */
  lemma RefreshKeepsPlace(t: nat, index: seq<nat>, forward: bool)
    requires index != []
    requires forall j, k | 0 <= j < k < |index| :: index[j] < index[k]
    ensures var r := RefreshedLoc(Some(t), index, forward).value;
      (t in index ==> index[r] == t) &&
      (forward && t <= index[|index| - 1] ==> t <= index[r] && (r > 0 ==> index[r - 1] < t)) &&
      (forward && t > index[|index| - 1] ==> r == 0) &&
      (!forward && index[0] <= t ==> index[r] <= t && (r + 1 < |index| ==> t < index[r + 1])) &&
      (!forward && t < index[0] ==> r == 0)
  {
    var f := FirstAtLeast(index, t, 0);
    if t in index {
      var j :| 0 <= j < |index| && index[j] == t;
      assert f.Some? && f.value <= j;
    }
    if !forward && f.Some? && index[0] <= t && f.value > 0 && index[f.value] != t {
      var r := f.value - 1;
      assert index[r] < t;
    }
  }

  /** One step of a running search, wrapping round at either end. */
  function SearchStep(loc: Option<nat>, n: nat, forward: bool): (r: Option<nat>)
    requires n > 0
    ensures r.Some? <==> loc.Some?
    ensures r.Some? ==> r.value < n
  {
    match loc
    case None => None
    case Some(p) =>
      if forward then (if p + 1 < n then Some(p + 1) else Some(0))
      else if 0 < p <= n then Some(p - 1)
      else Some(n - 1)
  }

  /** A step forward and a step back cancel out, in either order, and forward from the last match wraps to the first. */
  lemma SearchStepsCancel(p: nat, n: nat)
    requires p < n
    ensures SearchStep(SearchStep(Some(p), n, true), n, false) == Some(p)
    ensures SearchStep(SearchStep(Some(p), n, false), n, true) == Some(p)
    ensures SearchStep(Some(n - 1), n, true) == Some(0) && SearchStep(Some(0), n, false) == Some(n - 1)
  {
  }

  // ---------------------------------------------------------------------
  // Completion

  /** `s` lexicographically before `u`, unit by unit (the order `sort` puts strings in). */
  predicate Below(s: Text, u: Text)
    decreases |s|
  {
    if s == [] then u != []
    else if u == [] then false
    else if s[0] != u[0] then s[0] < u[0]
    else Below(s[1..], u[1..])
  }

  lemma {:induction false} BelowTotal(s: Text, u: Text)
    ensures s == u ==> !Below(s, u)
    ensures s != u ==> Below(s, u) != Below(u, s)
    decreases |s|
  {
    if s != [] && u != [] && s[0] == u[0] {
      BelowTotal(s[1..], u[1..]);
      if s[1..] == u[1..] {
        assert s == [s[0]] + s[1..] && u == [u[0]] + u[1..];
      }
    }
  }

  lemma {:induction false} BelowTransitive(s: Text, u: Text, v: Text)
    requires Below(s, u) && Below(u, v)
    ensures Below(s, v)
    decreases |s|
  {
    if s != [] && u != [] && v != [] && s[0] == u[0] && u[0] == v[0] {
      BelowTransitive(s[1..], u[1..], v[1..]);
    }
  }

  /** Each element before the next: what `sort` followed by `dedup` leaves. */
  predicate Sorted(xs: seq<Text>)
  {
    forall k | 0 <= k < |xs| - 1 :: Below(xs[k], xs[k + 1])
  }

  function InsertSorted(x: Text, xs: seq<Text>): (r: seq<Text>)
    requires Sorted(xs)
    ensures Sorted(r)
    ensures forall y :: y in r <==> y == x || y in xs
    ensures r != [] && (r[0] == x || (xs != [] && r[0] == xs[0]))
    decreases |xs|
  {
    if xs == [] then [x]
    else if x == xs[0] then xs
    else if Below(x, xs[0]) then [x] + xs
    else
      var rest := InsertSorted(x, xs[1..]);
      BelowTotal(x, xs[0]);
      assert forall y :: y in xs <==> y == xs[0] || y in xs[1..] by {
        assert xs == [xs[0]] + xs[1..];
      }
      [xs[0]] + rest
  }

  /** `sort` then `dedup`: the same strings, once each, in order. */
  function SortedUnique(xs: seq<Text>): (r: seq<Text>)
    ensures Sorted(r)
    ensures forall y :: y in r <==> y in xs
    decreases |xs|
  {
    if xs == [] then []
    else
      var r := InsertSorted(xs[|xs| - 1], SortedUnique(xs[..|xs| - 1]));
      assert forall y :: y in xs <==> y == xs[|xs| - 1] || y in xs[..|xs| - 1] by {
        assert xs == xs[..|xs| - 1] + [xs[|xs| - 1]];
      }
      r
  }

  /** A sorted list holds no string twice: each is strictly before every later one. */
  lemma {:induction false} SortedIsStrict(xs: seq<Text>, i: nat, j: nat)
    requires Sorted(xs) && i < j < |xs|
    ensures Below(xs[i], xs[j]) && xs[i] != xs[j]
    decreases j - i
  {
    if j > i + 1 {
      SortedIsStrict(xs, i, j - 1);
      BelowTransitive(xs[i], xs[j - 1], xs[j]);
    }
    BelowTotal(xs[i], xs[j]);
  }

  /** The completion hint: the candidates on show, and the one highlighted. */
  datatype Hint = Hint(completions: seq<Text>, highlighted: Option<nat>)

  predicate HintOk(h: Option<Hint>)
  {
    h.Some? ==>
      |h.value.completions| > 0 &&
      (h.value.highlighted.Some? ==> h.value.highlighted.value < |h.value.completions|)
  }

  /** The candidate the next `complete` highlights: the first, then each in turn, round again after the last. */
  function NextHighlight(h: Hint): (r: nat)
    requires |h.completions| > 0
    ensures r < |h.completions|
  {
    match h.highlighted
    case None => 0
    case Some(i) => (i + 1) % |h.completions|
  }

  /** Cycling visits the candidates in order and wraps from the last to the first. */
  lemma NextHighlightCycles(cs: seq<Text>, i: nat)
    requires i < |cs|
    ensures NextHighlight(Hint(cs, None)) == 0
    ensures i + 1 < |cs| ==> NextHighlight(Hint(cs, Some(i))) == i + 1
    ensures i + 1 == |cs| ==> NextHighlight(Hint(cs, Some(i))) == 0
  {
  }

  /** The longest common prefix of two texts. */
  function CommonPrefix(a: Text, b: Text): (r: Text)
    ensures r <= a && r <= b
    decreases |a|
  {
    if a == [] || b == [] || a[0] != b[0] then [] else [a[0]] + CommonPrefix(a[1..], b[1..])
  }

  /** Every prefix the two texts share is a prefix of `CommonPrefix`. */
  lemma {:induction false} CommonPrefixIsLongest(a: Text, b: Text, q: Text)
    requires q <= a && q <= b
    ensures q <= CommonPrefix(a, b)
    decreases |a|
  {
    if q != [] {
      assert a[0] == q[0] == b[0];
      CommonPrefixIsLongest(a[1..], b[1..], q[1..]);
    }
  }

  /** The longest prefix all the candidates share, folded pairwise. */
  function LongestCommonPrefix(cs: seq<Text>): Text
    requires |cs| >= 1
    decreases |cs|
  {
    if |cs| == 1 then cs[0] else CommonPrefix(LongestCommonPrefix(cs[..|cs| - 1]), cs[|cs| - 1])
  }

  /** The fold is a common prefix, and every common prefix is a prefix of it. */
  lemma {:induction false} LongestCommonPrefixIsLongest(cs: seq<Text>)
    requires |cs| >= 1
    ensures Util.IsCommonPrefix(LongestCommonPrefix(cs), cs)
    ensures forall q | Util.IsCommonPrefix(q, cs) :: q <= LongestCommonPrefix(cs)
    decreases |cs|
  {
    if |cs| > 1 {
      var init := cs[..|cs| - 1];
      LongestCommonPrefixIsLongest(init);
      var p := LongestCommonPrefix(init);
      var r := LongestCommonPrefix(cs);
      forall i | 0 <= i < |cs| ensures r <= cs[i] {
        if i < |cs| - 1 {
          assert init[i] == cs[i];
          assert r <= p && p <= cs[i];
        }
      }
      forall q | Util.IsCommonPrefix(q, cs) ensures q <= r {
        forall i | 0 <= i < |init| ensures q <= init[i] {
          assert init[i] == cs[i];
        }
        assert Util.IsCommonPrefix(q, init);
        CommonPrefixIsLongest(p, cs[|cs| - 1], q);
      }
    }
  }

  /**
   * What `find_longest_common_prefix` returns (a common prefix no other
   * common prefix outgrows) is the fold.
   */
  lemma FoundIsLongest(cs: seq<Text>, p: Text)
    requires |cs| >= 1 && Util.IsCommonPrefix(p, cs)
    requires forall q | Util.IsCommonPrefix(q, cs) :: |q| <= |p|
    ensures p == LongestCommonPrefix(cs)
  {
    LongestCommonPrefixIsLongest(cs);
  }

  /** Some common prefix of the candidates is longer than the word and extends it. */
  ghost predicate CanExtend(word: Text, cs: seq<Text>)
  {
    exists q :: Util.IsCommonPrefix(q, cs) && |q| > |word| && word <= q
  }

  /** Testing the longest common prefix alone decides whether any common prefix extends the word. */
  lemma ExtendByLongest(word: Text, cs: seq<Text>)
    requires |cs| >= 1
    ensures var p := LongestCommonPrefix(cs);
      CanExtend(word, cs) <==> |p| > |word| && word <= p
  {
    var p := LongestCommonPrefix(cs);
    LongestCommonPrefixIsLongest(cs);
    if CanExtend(word, cs) {
      var q :| Util.IsCommonPrefix(q, cs) && |q| > |word| && word <= q;
      assert q <= p;
    }
  }

  /**
   * A text and cursor after a removal, then `s` inserted at the cursor as
   * the redraw between the two settled it: the removal's redraw may pull
   * a cursor at the end back by one in no-eol mode.
   */
  function InsertAtSettled(d: (Text, nat), s: Text, noEol: bool): (Text, nat)
  {
    var c := Terms.DisplayCursor(d.1, |d.0|, noEol);
    (InsertRawText(d.0, c, s), c + |s|)
  }

  /**
   * Outside no-eol mode, deleting the word before the cursor and inserting
   * `s` replaces the part of the word left of the cursor with `s`, and
   * leaves the cursor after it.
   */
  lemma ReplaceWordShape(t: Text, c: nat, s: Text)
    requires c <= |t|
    ensures var w := WordBeforeCursor(t, c, false);
      var start := if w.Some? then w.value.0 else c;
      InsertAtSettled(WordDeleted(t, c, false), s, false) == (t[..start] + s + t[c..], start + |s|)
  {
    var w := WordBeforeCursor(t, c, false);
    var start := if w.Some? then w.value.0 else c;
    WordDeletedShape(t, c, false);
    var d := WordDeleted(t, c, false);
    assert d == (t[..start] + t[c..], start) by {
      if w.None? {
        assert t == t[..c] + t[c..];
      }
    }
    assert Terms.DisplayCursor(d.1, |d.0|, false) == start;
    assert InsertAtSettled(d, s, false) == (InsertRawText(d.0, start, s), start + |s|);
    if start == |d.0| {
      assert t[c..] == [];
      assert d.0 == t[..start];
      assert InsertRawText(d.0, start, s) == t[..start] + s + t[c..];
    } else {
      assert d.0[..start] == t[..start] && d.0[start..] == t[c..];
      assert InsertRawText(d.0, start, s) == t[..start] + s + t[c..];
    }
  }

  // ---------------------------------------------------------------------
  // The completion list

  /** The widest candidate, and 1 at least. */
  function MaxWordSize(cs: seq<Text>): (r: nat)
    ensures r >= 1 && forall i | 0 <= i < |cs| :: |cs[i]| <= r
  {
    if cs == [] then 1 else Max(MaxWordSize(cs[..|cs| - 1]), |cs[|cs| - 1]|)
  }

  /** The column width of `print_completion_list`: two more than the terminal split among as many candidates as fit. */
  function ColumnWidth(cs: seq<Text>, width: nat): (r: nat)
    ensures r >= 2
  {
    2 + width / Max(1, width / MaxWordSize(cs))
  }

  /** The number of columns of `print_completion_list`. */
  function Columns(cs: seq<Text>, width: nat): (r: nat)
    ensures r >= 1
  {
    Max(1, width / ColumnWidth(cs, width))
  }

  /** When a padded column fits the terminal, a full row of columns does too. */
  lemma RowFits(cs: seq<Text>, width: nat)
    requires ColumnWidth(cs, width) <= width
    ensures Columns(cs, width) * ColumnWidth(cs, width) <= width
  {
    var cw := ColumnWidth(cs, width);
    var q := width / cw;
    assert q * cw + width % cw == width;
    assert q >= 1 by {
      Terminals.DivMonotone(cw, width, cw);
      Terminals.MultipleMod(1, cw);
    }
  }

  const HighlightOn: Text := [ESC] + "[38;5;0m" + [ESC] + "[48;5;7m"
  const HighlightOff: Text := [ESC] + "[49m" + [ESC] + "[39m"

  function Spaces(n: nat): (r: Text)
    ensures |r| == n && forall i | 0 <= i < n :: r[i] == ' '
  {
    if n == 0 then [] else Spaces(n - 1) + [' ']
  }

  /** One candidate, left-aligned in its column, between the highlight codes when highlighted. */
  function Cell(com: Text, highlighted: bool, colWidth: nat): (r: Text)
  {
    var padded := if |com| < colWidth then com + Spaces(colWidth - |com|) else com;
    if highlighted then HighlightOn + padded + HighlightOff else padded
  }

  const RowBreak: Text := "\r\n"

  /** The list from candidate `k` on, with `i` candidates already on the current row. */
  function GridFrom(cs: seq<Text>, highlighted: Option<nat>, cols: nat, colWidth: nat, k: nat, i: nat): Text
    requires k <= |cs|
    decreases |cs| - k
  {
    if k == |cs| then []
    else
      var brk := i >= cols;
      (if brk then RowBreak else []) + Cell(cs[k], highlighted == Some(k), colWidth) +
      GridFrom(cs, highlighted, cols, colWidth, k + 1, if brk then 1 else i + 1)
  }

  /** The row breaks `GridFrom` writes. */
  function BreaksFrom(n: nat, cols: nat, k: nat, i: nat): nat
    requires k <= n
    decreases n - k
  {
    if k == n then 0
    else if i >= cols then 1 + BreaksFrom(n, cols, k + 1, 1)
    else BreaksFrom(n, cols, k + 1, i + 1)
  }

  /** `print_completion_list` as written: the list, and `len / cols` as its line count. */
  method PrintCompletionList(cs: seq<Text>, highlighted: Option<nat>, width: nat) returns (out: Text, lines: nat)
    ensures out == GridFrom(cs, highlighted, Columns(cs, width), ColumnWidth(cs, width), 0, 0)
    ensures lines == |cs| / Columns(cs, width)
  {
    var cols := Columns(cs, width);
    var colWidth := ColumnWidth(cs, width);
    lines := |cs| / cols;
    out := [];
    var i := 0;
    for index := 0 to |cs|
      invariant index == 0 ==> i == 0
      invariant i <= cols
      invariant out + GridFrom(cs, highlighted, cols, colWidth, index, i) == GridFrom(cs, highlighted, cols, colWidth, 0, 0)
    {
      var cell := Cell(cs[index], highlighted == Some(index), colWidth);
      var brk := i == cols;
      var sep: Text := if brk then RowBreak else [];
      var i' := if brk then 1 else i + 1;
      GridStep(cs, highlighted, cols, colWidth, index, i, out);
      out := out + sep + cell;
      i := i';
    }
  }

  /** One step of the list: the prefix written so far grows by the separator and the cell. */
  lemma GridStep(cs: seq<Text>, highlighted: Option<nat>, cols: nat, colWidth: nat, k: nat, i: nat, out: Text)
    requires k < |cs| && i <= cols
    ensures var brk := i == cols;
      out + GridFrom(cs, highlighted, cols, colWidth, k, i) ==
      (out + (if brk then RowBreak else []) + Cell(cs[k], highlighted == Some(k), colWidth)) +
      GridFrom(cs, highlighted, cols, colWidth, k + 1, if brk then 1 else i + 1)
  {
    var brk := i == cols;
    var sep: Text := if brk then RowBreak else [];
    var cell := Cell(cs[k], highlighted == Some(k), colWidth);
    var next := GridFrom(cs, highlighted, cols, colWidth, k + 1, if brk then 1 else i + 1);
    assert GridFrom(cs, highlighted, cols, colWidth, k, i) == sep + cell + next;
    Regroup(out, sep, cell, next);
  }

  lemma Regroup(a: Text, b: Text, c: Text, d: Text)
    ensures a + (b + c + d) == (a + b + c) + d
  {
  }

  /** The rows the list takes: one more than its breaks; none for no candidates. */
  function RowsPrinted(cs: seq<Text>, width: nat): nat
  {
    if cs == [] then 0 else BreaksFrom(|cs|, Columns(cs, width), 0, 0) + 1
  }

  /** With `i` candidates on the current row, the breaks still to come are as division predicts. */
  lemma {:induction false} BreaksCount(n: nat, cols: nat, k: nat, i: nat)
    requires cols >= 1 && 1 <= k <= n && 1 <= i <= cols
    ensures BreaksFrom(n, cols, k, i) == (n - k + i - 1) / cols
    decreases n - k
  {
    if k == n {
      Terminals.DivUnique(i - 1, cols, 0);
    } else if i >= cols {
      BreaksCount(n, cols, k + 1, 1);
      Terminals.DivPlusOne(n - k - 1, cols);
    } else {
      BreaksCount(n, cols, k + 1, i + 1);
    }
  }

  /** `n` candidates in `cols` columns fill `(n + cols - 1) / cols` rows. */
  lemma RowsAreCeiling(cs: seq<Text>, width: nat)
    ensures var cols := Columns(cs, width);
      RowsPrinted(cs, width) == (|cs| + cols - 1) / cols
  {
    var cols := Columns(cs, width);
    var n := |cs|;
    if n == 0 {
      Terminals.DivUnique(cols - 1, cols, 0);
    } else {
      BreaksCount(n, cols, 1, 1);
      Terminals.DivPlusOne(n - 1, cols);
    }
  }

  /**
   * The lines above the prompt when a completion list is shown, as
   * `_display` counts them: one for the final line break plus the count
   * `print_completion_list` returns.
   */
  function CompletionLinesAsWritten(cs: seq<Text>, width: nat): nat
  {
    1 + |cs| / Columns(cs, width)
  }

  /** Eight columns wide, two two-unit candidates share one row, yet the count says two lines. */
  lemma CompletionLinesOvercount()
    ensures Columns(["ab", "cd"], 8) == 2
    ensures RowsPrinted(["ab", "cd"], 8) == 1
    ensures CompletionLinesAsWritten(["ab", "cd"], 8) == 2
  {
    var cs: seq<Text> := ["ab", "cd"];
    assert MaxWordSize(cs[..1]) == 2;
    assert MaxWordSize(cs) == 2;
    assert ColumnWidth(cs, 8) == 4;
    assert BreaksFrom(2, 2, 1, 1) == 0;
  }

  /** The lines above the prompt: the rows the list takes (one for an empty list, whose line break still moves down a line). */
  function CompletionLines(hint: Option<Hint>, width: nat): (r: nat)
    ensures hint.Some? && hint.value.completions != [] ==> r == RowsPrinted(hint.value.completions, width)
    ensures hint.None? ==> r == 0
  {
    match hint
    case None => 0
    case Some(h) => if h.completions == [] then 1 else RowsPrinted(h.completions, width)
  }

  /** The count as written is right exactly when the last row is partly filled. */
  lemma CompletionLinesAgreeUnlessFull(cs: seq<Text>, width: nat)
    requires cs != []
    ensures CompletionLinesAsWritten(cs, width) == RowsPrinted(cs, width) <==> |cs| % Columns(cs, width) != 0
  {
    var cols := Columns(cs, width);
    assert BreaksFrom(|cs|, cols, 0, 0) == BreaksFrom(|cs|, cols, 1, 1);
    RowCountAgrees(|cs|, cols);
  }

  lemma RowCountAgrees(n: nat, cols: nat)
    requires n > 0 && cols >= 1
    ensures 1 + n / cols == BreaksFrom(n, cols, 1, 1) + 1 <==> n % cols != 0
  {
    BreaksCount(n, cols, 1, 1);
    var q, m := n / cols, n % cols;
    assert n == q * cols + m;
    if m == 0 {
      assert q >= 1;
      assert (q - 1) * cols == q * cols - cols;
      Terminals.DivUnique(n - 1, cols, q - 1);
    } else {
      Terminals.DivUnique(n - 1, cols, q);
    }
  }

  // ---------------------------------------------------------------------
  // The search prompt

  function Digit(d: nat): (r: char)
    requires d < 10
    ensures '0' <= r <= '9'
  {
    ('0' as int + d) as char
  }

  /** The decimal digits of `n`, as `format!` writes a number. */
  function Decimal(n: nat): (r: Text)
    ensures |r| >= 1 && forall i | 0 <= i < |r| :: '0' <= r[i] <= '9'
  {
    if n < 10 then [Digit(n)] else Decimal(n / 10) + [Digit(n % 10)]
  }

  /** The number a string of digits spells. */
  function DecimalValue(s: Text): nat
    requires forall i | 0 <= i < |s| :: '0' <= s[i] <= '9'
  {
    if s == [] then 0 else DecimalValue(s[..|s| - 1]) * 10 + (s[|s| - 1] as int - '0' as int)
  }

  /** Reading the digits back gives the number. */
  lemma {:induction false} DecimalRoundTrip(n: nat)
    ensures DecimalValue(Decimal(n)) == n
  {
    if n >= 10 {
      DecimalRoundTrip(n / 10);
      var s := Decimal(n);
      assert s[..|s| - 1] == Decimal(n / 10);
    }
  }

  /** The colour codes of the search prompt: red for no match, green otherwise, and the reset. */
  const Red: Text := [ESC] + "[38;5;1m"
  const Green: Text := [ESC] + "[38;5;2m"
  const ResetFg: Text := [ESC] + "[39m"

  /**
   * The search prompt: the prefix, `(search)'`, the text in red or green,
   * a back-quote, the place `(found/of)`, a colon, the suffix and a space.
   */
  function SearchPromptText(prefix: Text, text: Text, subset: seq<nat>, subsetLoc: Option<nat>, suffix: Text): Text
  {
    var hplace := if subset == [] then 0 else (if subsetLoc.Some? then subsetLoc.value else 0) + 1;
    var color := if subset == [] then Red else Green;
    SearchHead(prefix) + color + text + ResetFg + SearchTail(Decimal(hplace), Decimal(|subset|), suffix)
  }

  /** The search prompt up to the coloured text. */
  function SearchHead(prefix: Text): (r: Text)
    ensures |r| == |prefix| + 9
  {
    prefix + "(search)'"
  }

  /** The search prompt after the coloured text: the place among the matches, their number, and the prompt's suffix. */
  function SearchTail(d1: Text, d2: Text, suffix: Text): (r: Text)
    ensures |r| == 3 + |d1| + 1 + |d2| + 2 + |suffix| + 1
  {
    "` (" + d1 + "/" + d2 + "):" + suffix + " "
  }

  /** Text without escapes passes the code stripper unchanged, whatever follows it. */
  lemma {:induction false} PlainPrefixKept(a: Text, rest: Text)
    requires ESC !in a
    ensures Util.Strip(Util.Norm, a + rest) == a + Util.Strip(Util.Norm, rest)
    decreases |a|
  {
    if a != [] {
      calc {
        Util.Strip(Util.Norm, a + rest);
        { assert a + rest == [a[0]] + (a[1..] + rest); }
        Util.Strip(Util.Norm, [a[0]] + (a[1..] + rest));
        { Util.PlainCharKept(a[0], a[1..] + rest); }
        [a[0]] + Util.Strip(Util.Norm, a[1..] + rest);
        { PlainPrefixKept(a[1..], rest); }
        [a[0]] + (a[1..] + Util.Strip(Util.Norm, rest));
        { assert a == [a[0]] + a[1..]; }
        a + Util.Strip(Util.Norm, rest);
      }
    } else {
      assert a + rest == rest;
    }
  }

  /** A colour code takes no room on screen. */
  lemma ColorDropped(code: Text, rest: Text)
    requires code == Red || code == Green || code == ResetFg
    ensures Util.Strip(Util.Norm, code + rest) == Util.Strip(Util.Norm, rest)
  {
    var body := if code == ResetFg then "39" else if code == Red then "38;5;1" else "38;5;2";
    assert code == [ESC, '['] + body + ['m'];
    assert code + rest == [ESC, '['] + body + ['m'] + rest;
    Util.CsiDropped(body, 'm', rest);
  }

  /**
   * The width the search prompt takes: every visible unit of it, the
   * colour codes taking none, when the prefix, the text and the suffix
   * hold no escape or line break.
   */
  lemma SearchPromptWidth(prefix: Text, text: Text, subset: seq<nat>, subsetLoc: Option<nat>, suffix: Text)
    requires ESC !in prefix && ESC !in text && ESC !in suffix
    requires '\n' !in prefix && '\n' !in text && '\n' !in suffix
    ensures var hplace := if subset == [] then 0 else (if subsetLoc.Some? then subsetLoc.value else 0) + 1;
      Util.LastPromptLineWidth(SearchPromptText(prefix, text, subset, subsetLoc, suffix)) ==
      |prefix| + 9 + |text| + 3 + |Decimal(hplace)| + 1 + |Decimal(|subset|)| + 2 + |suffix| + 1
  {
    var hplace := if subset == [] then 0 else (if subsetLoc.Some? then subsetLoc.value else 0) + 1;
    var color := if subset == [] then Red else Green;
    var head := SearchHead(prefix);
    var d1, d2 := Decimal(hplace), Decimal(|subset|);
    var tail := SearchTail(d1, d2, suffix);
    assert ESC !in head && '\n' !in head;
    assert ESC !in d1 && '\n' !in d1 && ESC !in d2 && '\n' !in d2;
    assert ESC !in tail && '\n' !in tail;
    ColoredWidth(head, color, text, tail);
  }

  /** A line of plain parts around one coloured stretch is as wide as its plain parts. */
  lemma ColoredWidth(head: Text, color: Text, text: Text, tail: Text)
    requires color == Red || color == Green
    requires ESC !in head && ESC !in text && ESC !in tail
    requires '\n' !in head && '\n' !in text && '\n' !in tail
    ensures Util.LastPromptLineWidth(head + color + text + ResetFg + tail) == |head| + |text| + |tail|
  {
    var s := head + color + text + ResetFg + tail;
    assert s == head + (color + (text + (ResetFg + tail)));
    assert '\n' !in color && '\n' !in ResetFg;
    assert '\n' !in s;
    assert Util.HandlePrompt(s) == s by { Util.HandlePromptSpec(s); }
    PlainPrefixKept(head, color + (text + (ResetFg + tail)));
    ColorDropped(color, text + (ResetFg + tail));
    PlainPrefixKept(text, ResetFg + tail);
    ColorDropped(ResetFg, tail);
    PlainPrefixKept(tail, []);
    assert Util.Strip(Util.Norm, tail) == tail by { assert tail + [] == tail; }
    assert ESC in s by { assert s[|head|] == ESC; }
  }
}
