/**
 * The prefix completer: offers every stored string that starts with the
 * text being completed.
 */
module Complete {
  import opened Common

  datatype BasicCompleter = BasicCompleter(prefixes: seq<Text>)

  /** `BasicCompleter::completions`: the stored strings starting with `start`, in stored order. */
  function Completions(c: BasicCompleter, start: Text): (r: seq<Text>)
    ensures forall i | 0 <= i < |r| :: start <= r[i]
    ensures IsSubsequence(r, c.prefixes)
    ensures forall x :: multiset(r)[x] == if start <= x then multiset(c.prefixes)[x] else 0
  {
    Filter(c.prefixes, start)
  }

  function Filter(prefixes: seq<Text>, start: Text): (r: seq<Text>)
    ensures forall i | 0 <= i < |r| :: start <= r[i]
    ensures IsSubsequence(r, prefixes)
    ensures forall x :: multiset(r)[x] == if start <= x then multiset(prefixes)[x] else 0
    decreases |prefixes|
  {
    if prefixes == [] then []
    else
      var rest := Filter(prefixes[1..], start);
      assert prefixes == [prefixes[0]] + prefixes[1..];
      if start <= prefixes[0] then
        assert ([prefixes[0]] + rest)[1..] == rest;
        [prefixes[0]] + rest
      else
        SubsequenceOfTail(rest, prefixes);
        rest
  }

  /** Completing the empty text offers every stored string. */
  lemma {:induction false} EmptyQueryOffersAll(prefixes: seq<Text>)
    ensures Filter(prefixes, []) == prefixes
    decreases |prefixes|
  {
    if prefixes != [] {
      EmptyQueryOffersAll(prefixes[1..]);
      assert prefixes == [prefixes[0]] + prefixes[1..];
    }
  }
}
