/**
 * The history's documented usage replayed on the model, using only the
 * contracts of `Histories.History`.
 */
module HistoryScenarios {
  import opened Common
  import opened Histories

  /** `test_history_indexing`: three different commands pushed in order are indexed oldest first. */
  method Indexing(x: Text, y: Text, z: Text) returns (len: nat, first: Text, second: Text, third: Text)
    requires x != y && y != z && x != z
    ensures len == 3 && first == x && second == y && third == z
  {
    var h := new History();
    PushAbsent(h, x);
    PushAbsent(h, y);
    PushAbsent(h, z);
    assert h.buffers == [HistoryItem(None, x), HistoryItem(None, y), HistoryItem(None, z)];
    len := h.Len();
    first := h.At(0);
    second := h.At(1);
    third := h.At(2);
  }

  /**
   * `test_in_memory_history_truncating`: with room for two entries,
   * pushing two commands in turn four times leaves two entries.
   */
  method Truncating(x: Text, y: Text) returns (len: nat)
    requires x != y
    ensures len == 2
  {
    var h := new History();
    h.SetMaxHistorySize(2);
    for i := 0 to 4
      invariant h.maxHistorySize == 2 && h.throwaways == 0 && h.searchContext == None
      invariant i == 0 ==> h.buffers == []
      invariant i > 0 ==> h.buffers == [HistoryItem(None, x), HistoryItem(None, y)]
    {
      PushTwo(h, x, y);
    }
    len := h.Len();
  }

  /** From nothing or from `[x, y]`, pushing `x` then `y` leaves `[x, y]`. */
  method PushTwo(h: History, x: Text, y: Text)
    requires x != y
    requires h.maxHistorySize == 2 && h.throwaways == 0 && h.searchContext == None
    requires h.buffers == [] || h.buffers == [HistoryItem(None, x), HistoryItem(None, y)]
    modifies h
    ensures h.maxHistorySize == 2 && h.throwaways == 0 && h.searchContext == None
    ensures h.buffers == [HistoryItem(None, x), HistoryItem(None, y)]
  {
    PushOnto(h, y, x);
    PushOnto(h, x, y);
  }

  /** With room for two entries, pushing `b` onto nothing gives `[b]`, and onto `[b, a]` or `[a]` gives `[a, b]`. */
  method PushOnto(h: History, a: Text, b: Text)
    requires a != b
    requires h.maxHistorySize == 2 && h.throwaways == 0 && h.searchContext == None
    requires h.buffers == [] || h.buffers == [HistoryItem(None, b), HistoryItem(None, a)] || h.buffers == [HistoryItem(None, a)]
    modifies h
    ensures h.maxHistorySize == 2 && h.throwaways == 0 && h.searchContext == None
    ensures h.buffers == if old(h.buffers) == [] then [HistoryItem(None, b)] else [HistoryItem(None, a), HistoryItem(None, b)]
  {
    PushedOntoPair(h.buffers, a, b, h.maxContexts);
    h.Push(b);
  }

  /**
   * With room for two entries, no search context and no throwaways,
   * pushing `b` onto nothing gives `[b]`, and onto `[b, a]` or `[a]`
   * gives `[a, b]`.
   */
  lemma PushedOntoPair(items: seq<HistoryItem>, a: Text, b: Text, maxContexts: nat)
    requires a != b
    requires items == [] || items == [HistoryItem(None, b), HistoryItem(None, a)] || items == [HistoryItem(None, a)]
    ensures items[..|items| - Min(0, |items|)] == items
    ensures items == [] || items[|items| - 1].buffer != b
    ensures PushedContext(LastContextOf(items, b), None, maxContexts) == None
    ensures KeepNewest(Without(items, b) + [HistoryItem(None, b)], 2) ==
      if items == [] then [HistoryItem(None, b)] else [HistoryItem(None, a), HistoryItem(None, b)]
  {
    var A, B := HistoryItem(None, a), HistoryItem(None, b);
    assert items[..|items|] == items;
    if items == [A] {
      assert [A][1..] == [];
      assert Without(items, b) == [A];
    } else if items == [B, A] {
      assert [A][1..] == [];
      assert Without(items, b) == [A];
    }
  }

  /** Pushing a command the history does not hold, with room to spare, appends it in the search context. */
  method PushAbsent(h: History, item: Text)
    requires h.throwaways == 0 && |h.buffers| < h.maxHistorySize
    requires forall i | 0 <= i < |h.buffers| :: h.buffers[i].buffer != item
    modifies h
    ensures h.buffers == old(h.buffers) + [HistoryItem(if h.searchContext.Some? then Some([h.searchContext.value]) else None, item)]
    ensures h.throwaways == 0 && h.searchContext == old(h.searchContext)
    ensures h.maxContexts == old(h.maxContexts) && h.maxHistorySize == old(h.maxHistorySize)
  {
    var before := h.buffers;
    assert before[..|before| - Min(0, |before|)] == before;
    assert LastContextOf(before, item) == None by { NoCopyNoContext(before, item); }
    assert Without(before, item) == before by { NoCopyKeepsAll(before, item); }
    h.Push(item);
  }

  /** `cmd` entered in context `a`, `other` in `b`, then `cmd` again in context `b`. */
  method EnterInTwoContexts(cmd: Text, other: Text, a: Text, b: Text) returns (h: History)
    requires cmd != other && a != b && '*' !in a && '*' !in b
    ensures fresh(h)
    ensures h.buffers == [HistoryItem(Some([b]), other), HistoryItem(Some([a, b]), cmd)]
    ensures h.searchContext == Some(b) && h.throwaways == 0
    ensures h.maxContexts == DefaultMaxContexts && h.maxHistorySize == DefaultMaxSize
  {
    h := new History();
    h.SetSearchContext(Some(a));
    PushAbsent(h, cmd);
    h.SetSearchContext(Some(b));
    PushAbsent(h, other);
    PushInSecondContext(h, cmd, other, a, b);
  }

  /** `cmd`, entered in context `a` before `other` was entered in `b`, entered again in `b`. */
  method PushInSecondContext(h: History, cmd: Text, other: Text, a: Text, b: Text)
    requires cmd != other && a != b && '*' !in a && '*' !in b
    requires h.buffers == [HistoryItem(Some([a]), cmd), HistoryItem(Some([b]), other)]
    requires h.searchContext == Some(b) && h.throwaways == 0
    requires h.maxContexts == DefaultMaxContexts && h.maxHistorySize == DefaultMaxSize
    modifies h
    ensures h.buffers == [HistoryItem(Some([b]), other), HistoryItem(Some([a, b]), cmd)]
    ensures h.searchContext == Some(b) && h.throwaways == 0
    ensures h.maxContexts == DefaultMaxContexts && h.maxHistorySize == DefaultMaxSize
  {
    SecondContextFacts(cmd, other, a, b);
    assert !h.SkipsPush(h.buffers, cmd);
    h.Push(cmd);
  }

  /** The values `push` computes when `cmd`, entered in context `a`, is entered again in context `b` after `other`. */
  lemma SecondContextFacts(cmd: Text, other: Text, a: Text, b: Text)
    requires cmd != other && a != b && '*' !in a && '*' !in b
    ensures var two := [HistoryItem(Some([a]), cmd), HistoryItem(Some([b]), other)];
      two[..|two| - Min(0, |two|)] == two &&
      LastContextOf(two, cmd) == Some([a]) &&
      Without(two, cmd) == [HistoryItem(Some([b]), other)] &&
      PushedContext(Some([a]), Some(b), DefaultMaxContexts) == Some([a, b]) &&
      KeepNewest([HistoryItem(Some([b]), other)] + [HistoryItem(Some([a, b]), cmd)], DefaultMaxSize) ==
        [HistoryItem(Some([b]), other), HistoryItem(Some([a, b]), cmd)]
  {
    OlderCopyFound(HistoryItem(Some([a]), cmd), HistoryItem(Some([b]), other));
    SecondContextAdded(cmd, other, a, b);
  }

  /** The first of two entries holds `x.buffer`, the second does not: it is found and taken out. */
  lemma OlderCopyFound(x: HistoryItem, y: HistoryItem)
    requires x.buffer != y.buffer
    ensures var two := [x, y];
      two[..|two| - Min(0, |two|)] == two &&
      LastContextOf(two, x.buffer) == x.context && Without(two, x.buffer) == [y]
  {
    var two := [x, y];
    assert two == [x] + [y];
    assert two[..|two|] == two;
    WithoutAppend([x], y, x.buffer);
    WithoutAppend([], x, x.buffer);
    assert [] + [x] == [x];
  }

  /** The second context is added to the first, and both entries stay. */
  lemma SecondContextAdded(cmd: Text, other: Text, a: Text, b: Text)
    requires a != b && '*' !in a && '*' !in b
    ensures PushedContext(Some([a]), Some(b), DefaultMaxContexts) == Some([a, b]) &&
      KeepNewest([HistoryItem(Some([b]), other)] + [HistoryItem(Some([a, b]), cmd)], DefaultMaxSize) ==
        [HistoryItem(Some([b]), other), HistoryItem(Some([a, b]), cmd)]
  {
    assert a != Wild by { assert '*' in Wild; }
    assert [a] + [b] == [a, b];
    PushedContextGrows([a], b, DefaultMaxContexts);
  }

  /**
   * After the in-memory part of `test_shared_history`: a command entered
   * in two search contexts remembers both. Entered again in a context
   * containing `*`, its contexts collapse to the wildcard (the test reaches
   * the wildcard by outgrowing the five-context limit instead, the other
   * branch of the same rule).
   */
  method Contexts(cmd: Text, other: Text, a: Text, b: Text, starred: Text)
      returns (afterTwo: Option<seq<Text>>, afterStar: Option<seq<Text>>)
    requires cmd != other && a != b && '*' !in a && '*' !in b && '*' in starred
    ensures afterTwo == Some([a, b])
    ensures afterStar == Some([Wild])
  {
    var h := EnterInTwoContexts(cmd, other, a, b);
    afterTwo := h.GetContext(1);
    h.SetSearchContext(Some(starred));
    StarredContextFacts(cmd, other, a, b, starred);
    assert !h.SkipsPush(h.buffers, cmd);
    h.Push(cmd);
    afterStar := h.GetContext(1);
  }

  /** The values `push` computes when `cmd`, remembered in contexts `a` and `b`, is entered again in a context holding `*`. */
  lemma StarredContextFacts(cmd: Text, other: Text, a: Text, b: Text, starred: Text)
    requires cmd != other && a != b && '*' !in a && '*' !in b && '*' in starred
    ensures var two := [HistoryItem(Some([b]), other), HistoryItem(Some([a, b]), cmd)];
      two[..|two| - Min(0, |two|)] == two &&
      starred !in [a, b] &&
      LastContextOf(two, cmd) == Some([a, b]) &&
      Without(two, cmd) == [HistoryItem(Some([b]), other)] &&
      PushedContext(Some([a, b]), Some(starred), DefaultMaxContexts) == Some([Wild]) &&
      KeepNewest([HistoryItem(Some([b]), other)] + [HistoryItem(Some([Wild]), cmd)], DefaultMaxSize) ==
        [HistoryItem(Some([b]), other), HistoryItem(Some([Wild]), cmd)]
  {
    NewerCopyFound(HistoryItem(Some([b]), other), HistoryItem(Some([a, b]), cmd));
  }

  /** The second of two entries holds `z.buffer`, the first does not: it is found and taken out. */
  lemma NewerCopyFound(y: HistoryItem, z: HistoryItem)
    requires y.buffer != z.buffer
    ensures var two := [y, z];
      two[..|two| - Min(0, |two|)] == two &&
      LastContextOf(two, z.buffer) == z.context && Without(two, z.buffer) == [y]
  {
    var two := [y, z];
    assert two == [y] + [z];
    assert two[..|two|] == two;
    WithoutAppend([y], z, z.buffer);
    WithoutAppend([], y, z.buffer);
    assert [] + [y] == [y];
  }

  lemma {:induction false} NoCopyNoContext(items: seq<HistoryItem>, item: Text)
    requires forall i | 0 <= i < |items| :: items[i].buffer != item
    ensures LastContextOf(items, item) == None
    decreases |items|
  {
    if items != [] {
      NoCopyNoContext(items[..|items| - 1], item);
    }
  }

  lemma {:induction false} NoCopyKeepsAll(items: seq<HistoryItem>, item: Text)
    requires forall i | 0 <= i < |items| :: items[i].buffer != item
    ensures Without(items, item) == items
    decreases |items|
  {
    if items != [] {
      NoCopyKeepsAll(items[1..], item);
    }
  }

  lemma PushedContextGrows(prev: seq<Text>, c: Text, max: nat)
    requires Wild !in prev && '*' !in c && c !in prev && |prev| < max
    ensures PushedContext(Some(prev), Some(c), max) == Some(prev + [c])
  {
  }
}
