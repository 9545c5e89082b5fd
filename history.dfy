/**
 * The in-memory command history: entries oldest first, each with the
 * search contexts it was entered in.  `push` drops pending throwaway
 * entries, removes earlier copies of the command, merges contexts
 * (collapsing to the wildcard "*" when there are too many) and keeps at
 * most `maxHistorySize` entries.  Prefix recall and substring search are
 * queries over the entries.
 */
module Histories {
  import opened Common

  datatype HistoryItem = HistoryItem(context: Option<seq<Text>>, buffer: Text)

  const DefaultMaxSize: nat := 1000
  const DefaultMaxContexts: nat := 5

  /** The wildcard context, matching every search context. */
  const Wild: Text := "*"

  /** No context occurs twice. */
  predicate Distinct(xs: seq<Text>)
  {
    forall i, j | 0 <= i < j < |xs| :: xs[i] != xs[j]
  }

  // ---------------------------------------------------------------------
  // Context merging

  /** The inner loop of `merge_context`: append each context of `ctx` not yet in `acc`, in order. */
  function AddMissing(acc: seq<Text>, ctx: seq<Text>): (r: seq<Text>)
    decreases |ctx|
  {
    if ctx == [] then acc
    else AddMissing(if ctx[0] in acc then acc else acc + [ctx[0]], ctx[1..])
  }

  /** The merge keeps `acc` in front, adds exactly the missing contexts, and creates no repeats. */
  lemma {:induction false} AddMissingUnion(acc: seq<Text>, ctx: seq<Text>)
    ensures acc <= AddMissing(acc, ctx)
    ensures forall x :: x in AddMissing(acc, ctx) <==> x in acc || x in ctx
    ensures Distinct(acc) ==> Distinct(AddMissing(acc, ctx))
    decreases |ctx|
  {
    if ctx != [] {
      var next := if ctx[0] in acc then acc else acc + [ctx[0]];
      AddMissingUnion(next, ctx[1..]);
      assert forall x :: x in ctx <==> x == ctx[0] || x in ctx[1..] by {
        assert ctx == [ctx[0]] + ctx[1..];
      }
    }
  }

  /** `HistoryItem::merge_context`: the contexts an item has after meeting `other`. */
  function MergedContext(mine: Option<seq<Text>>, other: Option<seq<Text>>, maxContexts: nat): Option<seq<Text>>
  {
    match mine
    case None => other
    case Some(m) =>
      var wild := other.Some? && (Wild in m || Wild in other.value);
      var merged := if other.Some? && !wild then AddMissing(m, other.value) else m;
      if |merged| > maxContexts || wild then Some([Wild]) else Some(merged)
  }

  /** `merge_context`, with its loop over the other item's contexts. */
  method MergeContext(item: HistoryItem, otherContext: Option<seq<Text>>, maxContexts: nat) returns (r: HistoryItem)
    ensures r.buffer == item.buffer
    ensures r.context == MergedContext(item.context, otherContext, maxContexts)
  {
    if item.context.None? {
      return HistoryItem(otherContext, item.buffer);
    }
    var myContext := item.context.value;
    var hasWild := false;
    if otherContext.Some? {
      var context := otherContext.value;
      if Wild in myContext || Wild in context {
        hasWild := true;
      } else {
        for i := 0 to |context|
          invariant AddMissing(myContext, context[i..]) == AddMissing(item.context.value, context)
        {
          assert context[i..][1..] == context[i + 1..];
          if context[i] !in myContext {
            myContext := myContext + [context[i]];
          }
        }
        assert context[|context|..] == [];
      }
    }
    if |myContext| > maxContexts || hasWild {
      myContext := [Wild];
    }
    r := HistoryItem(Some(myContext), item.buffer);
  }

  /**
   * Merging either collapses to the wildcard alone, or is the union of
   * both sides with the item's own contexts first, without repeats and
   * within the limit; a wildcard on either side always collapses.
   */
  lemma MergedContextProperties(mine: Option<seq<Text>>, other: Option<seq<Text>>, maxContexts: nat)
    ensures mine.None? ==> MergedContext(mine, other, maxContexts) == other
    ensures mine.Some? && other.Some? && (Wild in mine.value || Wild in other.value) ==>
      MergedContext(mine, other, maxContexts) == Some([Wild])
    ensures mine.Some? ==> var r := MergedContext(mine, other, maxContexts).value;
      r == [Wild] ||
      (|r| <= maxContexts && mine.value <= r &&
       (forall x :: x in r <==> x in mine.value || (other.Some? && x in other.value)) &&
       (Distinct(mine.value) ==> Distinct(r)))
  {
    if mine.Some? && other.Some? {
      AddMissingUnion(mine.value, other.value);
    }
  }

  /**
   * The context `push` gives a command entered again: the context of its
   * newest earlier copy plus the search context, collapsed to the
   * wildcard on a wildcard or past the limit; a first entry gets the
   * search context alone.  The search context is checked for a `*`
   * anywhere in it, the old context for a `*` entry.
   */
  function PushedContext(prev: Option<seq<Text>>, searchContext: Option<Text>, maxContexts: nat): (r: Option<seq<Text>>)
    ensures prev.None? ==> (r.Some? <==> searchContext.Some?)
    ensures prev.None? && searchContext.Some? ==> r == Some([searchContext.value])
    ensures prev.Some? && searchContext.Some? && (Wild in prev.value || '*' in searchContext.value) ==> r == Some([Wild])
    ensures prev.Some? ==>
      (r.Some? && (r.value == [Wild] ||
        (|r.value| <= maxContexts && prev.value <= r.value &&
         (searchContext.Some? ==> searchContext.value in r.value) &&
         (forall x | x in r.value :: x in prev.value || (searchContext.Some? && x == searchContext.value)))))
  {
    match prev
    case Some(oc) =>
      var wild := searchContext.Some? && (Wild in oc || '*' in searchContext.value);
      var grown := if searchContext.Some? && !wild && searchContext.value !in oc then oc + [searchContext.value] else oc;
      if |grown| > maxContexts || wild then Some([Wild]) else Some(grown)
    case None =>
      if searchContext.Some? then Some([searchContext.value]) else None
  }

  // ---------------------------------------------------------------------
  // Entries as values

  /** The entries other than copies of `item`, in order. */
  function Without(items: seq<HistoryItem>, item: Text): (r: seq<HistoryItem>)
    ensures forall i | 0 <= i < |r| :: r[i].buffer != item
    ensures IsSubsequence(r, items)
    ensures |r| <= |items|
    decreases |items|
  {
    if items == [] then []
    else
      var rest := Without(items[1..], item);
      if items[0].buffer == item then
        SubsequenceOfTail(rest, items);
        rest
      else
        assert ([items[0]] + rest)[1..] == rest;
        [items[0]] + rest
  }

  /** The context of the newest copy of `item`, none when there is no copy (or that copy has none). */
  function LastContextOf(items: seq<HistoryItem>, item: Text): Option<seq<Text>>
    decreases |items|
  {
    if items == [] then None
    else if items[|items| - 1].buffer == item then items[|items| - 1].context
    else LastContextOf(items[..|items| - 1], item)
  }

  /** The newest `max` entries. */
  function KeepNewest(items: seq<HistoryItem>, max: nat): (r: seq<HistoryItem>)
    ensures |r| == Min(|items|, max)
    ensures r == items[|items| - |r|..]
  {
    if |items| > max then items[|items| - max..] else items
  }

  /** Whether an entry's contexts match the search context (or are the wildcard). */
  predicate ContextMatches(item: HistoryItem, searchContext: Option<Text>)
  {
    searchContext.Some? && item.context.Some? &&
    (Wild in item.context.value || searchContext.value in item.context.value)
  }

  /** The entry at `v` exists and starts with `term`. */
  predicate PrefixMatch(items: seq<HistoryItem>, v: nat, term: Text)
  {
    v < |items| && term <= items[v].buffer
  }

  /** Is `vals[k]` what the scan is looking for: a prefix match, with a matching context when `needContext`. */
  predicate Wanted(items: seq<HistoryItem>, searchContext: Option<Text>, vals: seq<nat>, term: Text,
                   needContext: bool, k: nat)
    requires k < |vals|
  {
    PrefixMatch(items, vals[k], term) && (needContext ==> ContextMatches(items[vals[k]], searchContext))
  }

  /** The position in `vals`, from `k` on, of the first wanted index. */
  function FirstWanted(items: seq<HistoryItem>, searchContext: Option<Text>, vals: seq<nat>, term: Text,
                       needContext: bool, k: nat): (r: Option<nat>)
    requires k <= |vals|
    ensures r.Some? ==> k <= r.value < |vals| && Wanted(items, searchContext, vals, term, needContext, r.value)
    ensures r.Some? ==> forall j | k <= j < r.value :: !Wanted(items, searchContext, vals, term, needContext, j)
    ensures r.None? ==> forall j | k <= j < |vals| :: !Wanted(items, searchContext, vals, term, needContext, j)
    decreases |vals| - k
  {
    if k == |vals| then None
    else if Wanted(items, searchContext, vals, term, needContext, k) then Some(k)
    else FirstWanted(items, searchContext, vals, term, needContext, k + 1)
  }

  /**
   * What `get_match` finds scanning `vals` in order: with a search context,
   * the first prefix match whose context matches, else the first prefix
   * match; without one, the first prefix match.
   */
  function MatchSpec(items: seq<HistoryItem>, searchContext: Option<Text>, vals: seq<nat>, term: Text): Option<nat>
  {
    var withContext := FirstWanted(items, searchContext, vals, term, true, 0);
    var any := FirstWanted(items, searchContext, vals, term, false, 0);
    if searchContext.Some? && withContext.Some? then Some(vals[withContext.value])
    else if any.Some? then Some(vals[any.value])
    else None
  }

  /**
   * What a match is: an index from `vals` whose entry starts with the term;
   * there is none exactly when no index in `vals` has one; and a match in
   * the search context is preferred whenever one exists.
   */
  lemma MatchSpecMeaning(items: seq<HistoryItem>, searchContext: Option<Text>, vals: seq<nat>, term: Text)
    ensures var r := MatchSpec(items, searchContext, vals, term);
      (r.Some? ==> r.value in vals && PrefixMatch(items, r.value, term)) &&
      (r.None? <==> forall k | 0 <= k < |vals| :: !PrefixMatch(items, vals[k], term)) &&
      (searchContext.Some? && (exists k | 0 <= k < |vals| :: Wanted(items, searchContext, vals, term, true, k)) ==>
         r.Some? && ContextMatches(items[r.value], searchContext))
  {
    var any := FirstWanted(items, searchContext, vals, term, false, 0);
    if any.None? {
      forall k | 0 <= k < |vals| ensures !PrefixMatch(items, vals[k], term) && !Wanted(items, searchContext, vals, term, true, k) {
        assert !Wanted(items, searchContext, vals, term, false, k);
      }
    } else {
      assert Wanted(items, searchContext, vals, term, false, any.value);
    }
  }

  /**
   * Scanning from `pos - 1` down finds the newest suitable entry: no
   * newer entry below `pos` starts with the term in the search context,
   * and when the match is outside it, none newer starts with the term.
   */
  lemma NewestMatchIsNewest(items: seq<HistoryItem>, searchContext: Option<Text>, pos: nat, term: Text)
    ensures var r := MatchSpec(items, searchContext, Descending(pos), term);
      r.Some? ==>
        (r.value < pos &&
         (forall j | r.value < j < pos :: !(PrefixMatch(items, j, term) && ContextMatches(items[j], searchContext))) &&
         (!ContextMatches(items[r.value], searchContext) ==> forall j | r.value < j < pos :: !PrefixMatch(items, j, term)))
  {
    var vals := Descending(pos);
    var r := MatchSpec(items, searchContext, vals, term);
    if r.Some? {
      forall j | r.value < j < pos
        ensures !(PrefixMatch(items, j, term) && ContextMatches(items[j], searchContext))
        ensures !ContextMatches(items[r.value], searchContext) ==> !PrefixMatch(items, j, term)
      {
        var k := pos - 1 - j;
        assert vals[k] == j;
        if searchContext.Some? && FirstWanted(items, searchContext, vals, term, true, 0).Some? {
          var w := FirstWanted(items, searchContext, vals, term, true, 0).value;
          assert vals[w] == r.value && k < w;
          assert Wanted(items, searchContext, vals, term, true, w);
          assert !Wanted(items, searchContext, vals, term, true, k);
        } else {
          var w := FirstWanted(items, searchContext, vals, term, false, 0).value;
          assert vals[w] == r.value && k < w;
          assert !Wanted(items, searchContext, vals, term, false, k);
          assert !Wanted(items, searchContext, vals, term, true, k) by {
            if searchContext.Some? {
              assert FirstWanted(items, searchContext, vals, term, true, 0).None?;
            }
          }
        }
      }
    }
  }

  /** The indices `pos - 1` down to 0: the scan order of `get_newest_match`. */
  function Descending(pos: nat): (r: seq<nat>)
    ensures |r| == pos
    ensures forall k | 0 <= k < pos :: r[k] == pos - 1 - k
  {
    seq(pos, k requires 0 <= k < pos => pos - 1 - k)
  }

  /** Which of the search groups an index belongs to. */
  datatype Group = Containing | ContainingNotPrefix | PrefixNoContext | PrefixWithContext

  predicate InGroup(item: HistoryItem, searchContext: Option<Text>, term: Text, g: Group)
  {
    match g
    case Containing => Occurs(term, item.buffer)
    case ContainingNotPrefix => Occurs(term, item.buffer) && !(term <= item.buffer) && item.buffer != term
    case PrefixNoContext => term <= item.buffer && !ContextMatches(item, searchContext)
    case PrefixWithContext => term <= item.buffer && ContextMatches(item, searchContext)
  }

  /** The indices below `n` in group `g`, in increasing order. */
  function IndicesBelow(items: seq<HistoryItem>, searchContext: Option<Text>, term: Text, g: Group, n: nat): (r: seq<nat>)
    requires n <= |items|
    ensures forall k | 0 <= k < |r| :: r[k] < n
    decreases n
  {
    if n == 0 then []
    else IndicesBelow(items, searchContext, term, g, n - 1) +
         (if InGroup(items[n - 1], searchContext, term, g) then [n - 1] else [])
  }

  /** The list is exactly the group's indices below `n`, strictly increasing. */
  lemma {:induction false} IndicesBelowExact(items: seq<HistoryItem>, searchContext: Option<Text>, term: Text, g: Group, n: nat)
    requires n <= |items|
    ensures var r := IndicesBelow(items, searchContext, term, g, n);
      (forall i | 0 <= i < n :: i in r <==> InGroup(items[i], searchContext, term, g)) &&
      (forall j, k | 0 <= j < k < |r| :: r[j] < r[k])
    decreases n
  {
    if n > 0 {
      IndicesBelowExact(items, searchContext, term, g, n - 1);
    }
  }

  /** `search_index`: the indices of the entries containing `term`, in increasing order (see `SearchIndexExact`). */
  function SearchIndex(items: seq<HistoryItem>, term: Text): (r: seq<nat>)
    ensures forall k | 0 <= k < |r| :: r[k] < |items|
  {
    IndicesBelow(items, None, term, Containing, |items|)
  }

  /** The search index holds exactly the entries containing `term`, in increasing order. */
  lemma SearchIndexExact(items: seq<HistoryItem>, term: Text)
    ensures var r := SearchIndex(items, term);
      (forall i | 0 <= i < |items| :: i in r <==> Occurs(term, items[i].buffer)) &&
      (forall j, k | 0 <= j < k < |r| :: r[j] < r[k])
  {
    IndicesBelowExact(items, None, term, Containing, |items|);
  }

  // ---------------------------------------------------------------------
  // The history

  class History {
    /** Entries, oldest first. */
    var buffers: seq<HistoryItem>
    var maxHistorySize: nat
    /** How many of the newest entries are throwaways, removed by the next `push`. */
    var throwaways: nat
    /** Entries pushed in this session (used when sharing a history file). */
    var localShare: nat
    var maxContexts: nat
    var searchContext: Option<Text>

    /** `History::new`. */
    constructor ()
      ensures buffers == [] && maxHistorySize == DefaultMaxSize && throwaways == 0 && localShare == 0
      ensures maxContexts == DefaultMaxContexts && searchContext == None
    {
      buffers := [];
      maxHistorySize := DefaultMaxSize;
      throwaways := 0;
      localShare := 0;
      maxContexts := DefaultMaxContexts;
      searchContext := None;
    }

    method SetMaxContexts(n: nat)
      modifies this`maxContexts
      ensures maxContexts == n
    {
      maxContexts := n;
    }

    method SetSearchContext(context: Option<Text>)
      modifies this`searchContext
      ensures searchContext == context
    {
      searchContext := context;
    }

    method SetMaxHistorySize(size: nat)
      modifies this`maxHistorySize
      ensures maxHistorySize == size
    {
      maxHistorySize := size;
    }

    /** `clear_history`. */
    method ClearHistory()
      modifies this`buffers
      ensures buffers == []
    {
      buffers := [];
    }

    function Len(): (r: nat)
      reads this
      ensures r == |buffers|
    {
      |buffers|
    }

    function IsEmpty(): (r: bool)
      reads this
      ensures r <==> Len() == 0
    {
      buffers == []
    }

    /** `Index`: the command at `index` (out of range panics). */
    function At(index: nat): (r: Text)
      requires index < |buffers|
      reads this
    {
      buffers[index].buffer
    }

    /** `get_context` (out of range panics). */
    function GetContext(index: nat): Option<seq<Text>>
      requires index < |buffers|
      reads this
    {
      buffers[index].context
    }

    /** `push_throwaway`: append a context-free entry to be dropped by the next `push`, unless it repeats the newest entry. */
    method PushThrowaway(newItem: Text)
      modifies this`buffers, this`throwaways
      ensures buffers != [] && buffers[|buffers| - 1].buffer == newItem
      ensures old(buffers) != [] && old(buffers)[|old(buffers)| - 1].buffer == newItem ==>
        buffers == old(buffers) && throwaways == old(throwaways)
      ensures !(old(buffers) != [] && old(buffers)[|old(buffers)| - 1].buffer == newItem) ==>
        buffers == old(buffers) + [HistoryItem(None, newItem)] && throwaways == old(throwaways) + 1
    {
      if buffers != [] && buffers[|buffers| - 1].buffer == newItem {
        return;
      }
      buffers := buffers + [HistoryItem(None, newItem)];
      throwaways := throwaways + 1;
    }

    /** The first loop of `push`: pop an entry per pending throwaway (popping an empty history does nothing). */
    method PopThrowaways()
      modifies this`buffers, this`throwaways
      ensures throwaways == 0
      ensures buffers == old(buffers)[..|old(buffers)| - Min(old(throwaways), |old(buffers)|)]
    {
      while throwaways > 0
        invariant |buffers| <= |old(buffers)|
        invariant buffers == old(buffers)[..|buffers|]
        invariant old(throwaways) - throwaways == |old(buffers)| - |buffers| || (buffers == [] && old(throwaways) - throwaways >= |old(buffers)|)
        invariant throwaways <= old(throwaways)
      {
        if buffers != [] {
          buffers := buffers[..|buffers| - 1];
        }
        throwaways := throwaways - 1;
      }
    }

    /** `remove_duplicates`: drop every copy of `input`; report the context of the newest one. */
    method RemoveDuplicates(input: Text) returns (ret: Option<seq<Text>>)
      modifies this`buffers
      ensures buffers == Without(old(buffers), input)
      ensures ret == LastContextOf(old(buffers), input)
    {
      var items := buffers;
      var kept: seq<HistoryItem> := [];
      ret := None;
      for i := 0 to |items|
        invariant kept == Without(items[..i], input)
        invariant ret == LastContextOf(items[..i], input)
      {
        WithoutPrefixStep(items, i, input);
        if items[i].buffer == input {
          ret := items[i].context;
        } else {
          kept := kept + [items[i]];
        }
      }
      assert items[..|items|] == items;
      buffers := kept;
    }

    /** Whether `push` leaves the history alone: the command repeats the newest entry, in the current search context. */
    predicate SkipsPush(items: seq<HistoryItem>, newItem: Text)
      reads this
    {
      items != [] && items[|items| - 1].buffer == newItem &&
      (searchContext.Some? && items[|items| - 1].context.Some? ==> searchContext.value in items[|items| - 1].context.value)
    }

    /**
     * `push` (in memory): drop pending throwaways; then, unless the command
     * repeats the newest entry in the current context, move it to the
     * newest position with its merged context and drop the oldest entries
     * beyond the size limit.
     */
    method Push(newItem: Text)
      modifies this`buffers, this`throwaways, this`localShare
      ensures throwaways == 0 && localShare == old(localShare) + 1
      ensures var kept := old(buffers)[..|old(buffers)| - Min(old(throwaways), |old(buffers)|)];
        if SkipsPush(kept, newItem) then buffers == kept
        else
          var ctx := PushedContext(LastContextOf(kept, newItem), searchContext, maxContexts);
          buffers == KeepNewest(Without(kept, newItem) + [HistoryItem(ctx, newItem)], maxHistorySize)
    {
      PopThrowaways();
      localShare := localShare + 1;
      var sameLastContext := true;
      if searchContext.Some? {
        if buffers != [] && buffers[|buffers| - 1].context.Some? {
          sameLastContext := searchContext.value in buffers[|buffers| - 1].context.value;
        }
      }
      if buffers != [] && buffers[|buffers| - 1].buffer == newItem && sameLastContext {
        return;
      }
      ghost var kept := buffers;
      var oldContext := RemoveDuplicates(newItem);
      var context := PushedContext(oldContext, searchContext, maxContexts);
      buffers := PopOldest(buffers + [HistoryItem(context, newItem)], maxHistorySize);
    }

    /** `truncate`: keep the newest `maxHistorySize` entries, popping from the oldest end. */
    method Truncate()
      modifies this`buffers
      ensures buffers == KeepNewest(old(buffers), maxHistorySize)
    {
      if |buffers| >= maxHistorySize {
        var popOut := |buffers| - maxHistorySize;
        for i := 0 to popOut
          invariant buffers == old(buffers)[i..]
        {
          buffers := buffers[1..];
        }
      }
    }

    /** `get_match`: scan `vals` in order, preferring an entry in the search context. */
    method GetMatch(vals: seq<nat>, searchTerm: Text) returns (r: Option<nat>)
      ensures r == MatchSpec(buffers, searchContext, vals, searchTerm)
    {
      var candidate: Option<nat> := None;
      ghost var candidatePos: nat := 0;
      for k := 0 to |vals|
        invariant candidate.None? ==> FirstWanted(buffers, searchContext, vals, searchTerm, false, 0) ==
                                      FirstWanted(buffers, searchContext, vals, searchTerm, false, k)
        invariant candidate.Some? ==> FirstWanted(buffers, searchContext, vals, searchTerm, false, 0) == Some(candidatePos) &&
                                      candidatePos < k && candidate == Some(vals[candidatePos])
        invariant searchContext.Some? ==> FirstWanted(buffers, searchContext, vals, searchTerm, true, 0) ==
                                          FirstWanted(buffers, searchContext, vals, searchTerm, true, k)
        invariant searchContext.None? ==> candidate.None?
      {
        var v := vals[k];
        if v < |buffers| {
          var entry := buffers[v];
          if searchTerm <= entry.buffer {
            if candidate.None? {
              candidate := Some(v);
              candidatePos := k;
            }
            if searchContext.Some? {
              if entry.context.Some? {
                if Wild in entry.context.value || searchContext.value in entry.context.value {
                  return Some(v);
                }
              }
            } else {
              return candidate;
            }
          }
        }
      }
      return candidate;
    }

    /**
     * `get_newest_match`: the newest entry below `currPosition` (default:
     * all of them) starting with `term`, preferring one in the search
     * context; none below 0, and it never wraps.
     */
    method GetNewestMatch(currPosition: Option<nat>, term: Text) returns (r: Option<nat>)
      ensures var pos := if currPosition.Some? then currPosition.value else |buffers|;
        (pos == 0 ==> r == None) &&
        (pos > 0 ==> r == MatchSpec(buffers, searchContext, Descending(pos), term))
    {
      var pos := if currPosition.Some? then currPosition.value else |buffers|;
      if pos > 0 {
        r := GetMatch(Descending(pos), term);
      } else {
        r := None;
      }
    }

    /**
     * `get_history_subset`: the entries containing the term but not
     * starting with it, then the prefix matches outside the search
     * context, then those inside it; each group in increasing order.
     */
    method GetHistorySubset(searchTerm: Text) returns (ret: seq<nat>)
      ensures ret == IndicesBelow(buffers, searchContext, searchTerm, ContainingNotPrefix, |buffers|) +
                     IndicesBelow(buffers, searchContext, searchTerm, PrefixNoContext, |buffers|) +
                     IndicesBelow(buffers, searchContext, searchTerm, PrefixWithContext, |buffers|)
    {
      var v1: seq<nat> := [];
      var v2: seq<nat> := [];
      ret := [];
      for i := 0 to |buffers|
        invariant ret == IndicesBelow(buffers, searchContext, searchTerm, ContainingNotPrefix, i)
        invariant v2 == IndicesBelow(buffers, searchContext, searchTerm, PrefixNoContext, i)
        invariant v1 == IndicesBelow(buffers, searchContext, searchTerm, PrefixWithContext, i)
      {
        var entry := buffers[i];
        var starts := searchTerm <= entry.buffer;
        var contains := Occurs(searchTerm, entry.buffer);
        var hasContext := false;
        if searchContext.Some? {
          if entry.context.Some? {
            hasContext := Wild in entry.context.value || searchContext.value in entry.context.value;
          }
        }
        if hasContext && starts {
          v1 := v1 + [i];
        } else if starts {
          v2 := v2 + [i];
        }
        if contains && !starts && entry.buffer != searchTerm {
          ret := ret + [i];
        }
      }
      ret := ret + v2 + v1;
    }
  }

  /** The loop at the end of `push`: pop the oldest entry while there are more than `max`. */
  method PopOldest(items: seq<HistoryItem>, max: nat) returns (r: seq<HistoryItem>)
    ensures r == KeepNewest(items, max)
  {
    r := items;
    while |r| > max
      invariant r == items[|items| - |r|..]
      invariant KeepNewest(items, max) == KeepNewest(r, max)
    {
      r := r[1..];
    }
  }

  /**
   * What a `push` that is not skipped leaves: the command is the newest
   * entry and has no other copy, the rest keep their order, and the limit
   * holds.
   */
  lemma PushedEntries(kept: seq<HistoryItem>, newItem: Text, ctx: Option<seq<Text>>, max: nat)
    requires max > 0
    ensures var r := KeepNewest(Without(kept, newItem) + [HistoryItem(ctx, newItem)], max);
      0 < |r| <= max && r[|r| - 1] == HistoryItem(ctx, newItem) &&
      (forall i | 0 <= i < |r| - 1 :: r[i].buffer != newItem) &&
      (var others := Without(kept, newItem); r[..|r| - 1] == others[|others| - (|r| - 1)..]) &&
      |r| == Min(|Without(kept, newItem)| + 1, max)
  {
    var others := Without(kept, newItem);
    var full := others + [HistoryItem(ctx, newItem)];
    var r := KeepNewest(full, max);
    assert r == full[|full| - |r|..];
    assert r[..|r| - 1] == others[|others| - (|r| - 1)..];
  }

  lemma WithoutAppend(items: seq<HistoryItem>, x: HistoryItem, item: Text)
    ensures Without(items + [x], item) == Without(items, item) + (if x.buffer == item then [] else [x])
    ensures LastContextOf(items + [x], item) == if x.buffer == item then x.context else LastContextOf(items, item)
  {
    WithoutAppendInduct(items, x, item);
    assert (items + [x])[..|items|] == items;
  }

  /** One more entry of a prefix is dropped when it holds `item`, else kept, and its context is the newest one when it holds `item`. */
  lemma WithoutPrefixStep(items: seq<HistoryItem>, i: nat, item: Text)
    requires i < |items|
    ensures Without(items[..i + 1], item) == Without(items[..i], item) + (if items[i].buffer == item then [] else [items[i]])
    ensures LastContextOf(items[..i + 1], item) == if items[i].buffer == item then items[i].context else LastContextOf(items[..i], item)
  {
    assert items[..i + 1] == items[..i] + [items[i]];
    WithoutAppend(items[..i], items[i], item);
  }

  lemma {:induction false} WithoutAppendInduct(items: seq<HistoryItem>, x: HistoryItem, item: Text)
    ensures Without(items + [x], item) == Without(items, item) + (if x.buffer == item then [] else [x])
    decreases |items|
  {
    if items == [] {
      assert [x][1..] == [];
    } else {
      assert (items + [x])[1..] == items[1..] + [x];
      WithoutAppendInduct(items[1..], x, item);
    }
  }
}
