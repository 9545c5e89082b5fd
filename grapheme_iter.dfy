/**
 * A double-ended iterator over the graphemes of a UTF-8 string, given the
 * byte offset at which each grapheme starts.  The iterator covers the
 * grapheme indices `[min, max)`; `curr` is the next index from the front
 * and `back` the next index from the back (a signed value that reaches -1).
 */
module GraphemeIters {
  import opened Common

  type Bytes = seq<bv8>

  const USIZE_MODULUS: int := 0x1_0000_0000_0000_0000

  /** Grapheme start offsets: the first is 0, they strictly increase and stay inside the data. */
  predicate WellFormed(data: Bytes, offsets: seq<nat>)
  {
    (|offsets| == 0 ==> |data| == 0) &&
    (|offsets| > 0 ==> offsets[0] == 0) &&
    (forall k | 0 <= k < |offsets| :: offsets[k] < |data|) &&
    (forall k | 0 <= k < |offsets| - 1 :: offsets[k] < offsets[k + 1])
  }

  /** The byte offset where grapheme `k` starts, or the data length past the last one. */
  function Bound(data: Bytes, offsets: seq<nat>, k: nat): (r: nat)
    requires WellFormed(data, offsets) && k <= |offsets|
    ensures r <= |data|
  {
    if k == |offsets| then |data| else offsets[k]
  }

  lemma BoundsIncrease(data: Bytes, offsets: seq<nat>, j: nat, k: nat)
    requires WellFormed(data, offsets) && j <= k <= |offsets|
    ensures Bound(data, offsets, j) <= Bound(data, offsets, k)
    ensures j < k ==> Bound(data, offsets, j) < Bound(data, offsets, k)
    decreases k - j
  {
    if j < k {
      BoundsIncrease(data, offsets, j + 1, k);
    }
  }

  /** The bytes of grapheme `k`. */
  function Unit(data: Bytes, offsets: seq<nat>, k: nat): (r: Bytes)
    requires WellFormed(data, offsets) && k < |offsets|
    ensures |r| > 0
  {
    BoundsIncrease(data, offsets, k, k + 1);
    data[Bound(data, offsets, k)..Bound(data, offsets, k + 1)]
  }

  lemma UnitBytes(data: Bytes, offsets: seq<nat>, k: nat)
    requires WellFormed(data, offsets) && k < |offsets|
    ensures k + 1 == |offsets| ==> offsets[k] <= |data| && Unit(data, offsets, k) == data[offsets[k]..]
    ensures k + 1 < |offsets| ==>
      offsets[k] < offsets[k + 1] <= |data| && Unit(data, offsets, k) == data[offsets[k]..offsets[k + 1]]
  {
  }

  /** Graphemes `lo` up to (not including) `hi`, in order. */
  function Units(data: Bytes, offsets: seq<nat>, lo: nat, hi: nat): (r: seq<Bytes>)
    requires WellFormed(data, offsets) && lo <= hi <= |offsets|
    ensures |r| == hi - lo
  {
    seq(hi - lo, k requires 0 <= k < hi - lo => Unit(data, offsets, lo + k))
  }

  function Flatten(units: seq<Bytes>): Bytes
  {
    if units == [] then [] else units[0] + Flatten(units[1..])
  }

  /** Joining graphemes `lo` to `hi` gives back the bytes they span. */
  lemma {:induction false} UnitsConcat(data: Bytes, offsets: seq<nat>, lo: nat, hi: nat)
    requires WellFormed(data, offsets) && lo <= hi <= |offsets|
    ensures Bound(data, offsets, lo) <= Bound(data, offsets, hi)
    ensures Flatten(Units(data, offsets, lo, hi)) == data[Bound(data, offsets, lo)..Bound(data, offsets, hi)]
    decreases hi - lo
  {
    BoundsIncrease(data, offsets, lo, hi);
    if lo < hi {
      UnitsConcat(data, offsets, lo + 1, hi);
      var us := Units(data, offsets, lo, hi);
      assert us[1..] == Units(data, offsets, lo + 1, hi);
      BoundsIncrease(data, offsets, lo + 1, hi);
      var a, b, c := Bound(data, offsets, lo), Bound(data, offsets, lo + 1), Bound(data, offsets, hi);
      assert us[0] == Unit(data, offsets, lo) == data[a..b];
      assert Flatten(us) == us[0] + Flatten(us[1..]);
      assert data[a..b] + data[b..c] == data[a..c];
    }
  }

  /** `curr_grapheme_back as usize`: a negative value wraps around. */
  function AsUsize(x: int): nat
    requires -USIZE_MODULUS < x < USIZE_MODULUS
  {
    if x < 0 then x + USIZE_MODULUS else x
  }

  class GraphemeIter {
    const data: Bytes
    const offsets: seq<nat>
    var curr: int
    var back: int
    const minG: nat
    const maxG: nat

    ghost predicate Valid()
      reads this
    {
      WellFormed(data, offsets) && minG <= maxG <= |offsets| &&
      minG <= curr <= back + 1 <= maxG
    }

    /** The graphemes not yet yielded from either end. */
    ghost function Remaining(): seq<Bytes>
      reads this
      requires Valid()
    {
      Units(data, offsets, curr, back + 1)
    }

    /** `GraphemeIter::default`: an iterator over nothing. */
    constructor Default()
      ensures Valid() && Remaining() == [] && Len() == 0
      ensures Slice() == [] && Get(8) == None
    {
      data := [];
      offsets := [];
      curr := 0;
      back := -1;
      minG := 0;
      maxG := 0;
    }

    /** `GraphemeIter::new(data, offsets, curr, max)`: the graphemes `[curr, max)`. */
    constructor (data: Bytes, offsets: seq<nat>, curr: nat, maxGrapheme: nat)
      requires WellFormed(data, offsets) && curr <= maxGrapheme <= |offsets|
      ensures Valid() && this.data == data && this.offsets == offsets
      ensures minG == curr && maxG == maxGrapheme
      ensures Remaining() == Units(data, offsets, curr, maxGrapheme)
      ensures Len() == maxGrapheme - curr
    {
      this.data := data;
      this.offsets := offsets;
      this.curr := curr;
      this.back := maxGrapheme - 1;
      this.minG := curr;
      this.maxG := maxGrapheme;
    }

    /** `len()`: how many graphemes are still to come. */
    function Len(): (r: nat)
      reads this
      requires Valid()
      ensures r == |Remaining()|
    {
      if curr > back then 0 else back - curr + 1
    }

    /** `slice()`: the bytes of the whole range `[min, max)`, whatever has been iterated. */
    function Slice(): (r: Bytes)
      reads this
      requires Valid()
      ensures r == Flatten(Units(data, offsets, minG, maxG))
    {
      UnitsConcat(data, offsets, minG, maxG);
      var start := if minG == 0 || minG == |offsets| then Bound(data, offsets, minG) else offsets[minG];
      var end := if maxG == |offsets| then |data| else offsets[maxG];
      data[start..end]
    }

    /** `get(idx)`: grapheme `idx`, or None at or past the end of the range. */
    function Get(idx: nat): (r: Option<Bytes>)
      reads this
      requires Valid()
      ensures idx >= maxG ==> r == None
      ensures idx < maxG ==> r == Some(Unit(data, offsets, idx))
    {
      if idx < maxG then
        var start := offsets[idx];
        UnitBytes(data, offsets, idx);
        if idx + 1 == |offsets| then Some(data[start..])
        else Some(data[start..offsets[idx + 1]])
      else None
    }

    /** `next()`: the first remaining grapheme, taken from the front. */
    method Next() returns (r: Option<Bytes>)
      requires Valid()
      modifies this`curr
      ensures Valid() && back == old(back)
      ensures old(Remaining()) == [] ==> r == None && curr == old(curr)
      ensures old(Remaining()) != [] ==>
        r == Some(old(Remaining())[0]) && Remaining() == old(Remaining())[1..] && Len() == old(Len()) - 1
    {
      if |offsets| == 0 || curr > back {
        return None;
      }
      ghost var u := Unit(data, offsets, curr);
      assert old(Remaining())[0] == u;
      UnitBytes(data, offsets, curr);
      var start := offsets[curr];
      curr := curr + 1;
      if curr == back + 1 {
        if curr == |offsets| {
          r := Some(data[start..]);
        } else {
          r := Some(data[start..offsets[back + 1]]);
        }
      } else {
        r := Some(data[start..offsets[curr]]);
      }
      assert Remaining() == old(Remaining())[1..];
    }

    /** `next_back()`: the last remaining grapheme, taken from the back. */
    method NextBack() returns (r: Option<Bytes>)
      requires Valid()
      modifies this`back
      ensures Valid() && curr == old(curr)
      ensures old(Remaining()) == [] ==> r == None && back == old(back)
      ensures old(Remaining()) != [] ==>
        r == Some(old(Remaining())[|old(Remaining())| - 1]) &&
        Remaining() == old(Remaining())[..|old(Remaining())| - 1] && Len() == old(Len()) - 1
    {
      if |offsets| == 0 || back < curr {
        return None;
      }
      ghost var u := Unit(data, offsets, back);
      assert old(Remaining())[|old(Remaining())| - 1] == u;
      UnitBytes(data, offsets, back);
      var start := offsets[back];
      if back == maxG - 1 {
        if maxG == |offsets| {
          back := back - 1;
          r := Some(data[start..]);
        } else {
          var maxChar := offsets[back + 1];
          back := back - 1;
          r := Some(data[start..maxChar]);
        }
      } else if back == curr {
        var end := offsets[back + 1];
        back := back - 1;
        if curr == 0 {
          r := Some(data[..end]);
        } else {
          r := Some(data[start..end]);
        }
      } else {
        var end := offsets[back + 1];
        back := back - 1;
        r := Some(data[start..end]);
      }
      assert Remaining() == old(Remaining())[..|old(Remaining())| - 1];
    }

    /** `From<GraphemeIter> for String`: drain the iterator from the front and join what it yields. */
    method IntoString() returns (s: Bytes)
      requires Valid()
      modifies this`curr
      ensures Valid() && Remaining() == []
      ensures s == Flatten(old(Remaining()))
    {
      s := [];
      ghost var all := Remaining();
      while true
        invariant Valid() && back == old(back)
        invariant old(curr) <= curr
        invariant s + Flatten(Remaining()) == Flatten(all)
        decreases back + 1 - curr
      {
        ghost var before := Remaining();
        var g := Next();
        if g.None? {
          break;
        }
        assert before == [g.value] + Remaining();
        assert Flatten(before) == g.value + Flatten(Remaining());
        s := s + g.value;
      }
    }
  }

  /** A fresh iterator joined from the front gives exactly its slice. */
  lemma IterationMatchesSlice(data: Bytes, offsets: seq<nat>, lo: nat, hi: nat)
    requires WellFormed(data, offsets) && lo <= hi <= |offsets|
    ensures Bound(data, offsets, lo) <= Bound(data, offsets, hi) &&
      Flatten(Units(data, offsets, lo, hi)) == data[Bound(data, offsets, lo)..Bound(data, offsets, hi)]
    ensures lo == 0 && hi == |offsets| ==> Flatten(Units(data, offsets, lo, hi)) == data
  {
    UnitsConcat(data, offsets, lo, hi);
  }

  // The code as written.

  /**
   * `next()` as written: the emptiness test compares `curr` with
   * `back as usize`, so a `back` of -1 reads as the largest usize and the
   * test passes.  None in the outer Option stands for a panic (an index out
   * of bounds); otherwise the value yielded and the new `curr`.
   */
  function NextAsWritten(data: Bytes, offsets: seq<nat>, curr: nat, back: int): Option<(Option<Bytes>, nat)>
    requires -USIZE_MODULUS < back < USIZE_MODULUS
  {
    if |offsets| == 0 || curr > AsUsize(back) then Some((None, curr))
    else if curr >= |offsets| then None
    else
      var start := offsets[curr];
      var c := curr + 1;
      if c == back + 1 then
        if c == |offsets| then
          if start <= |data| then Some((Some(data[start..]), c)) else None
        else if 0 <= back + 1 < |offsets| && start <= offsets[back + 1] <= |data| then
          Some((Some(data[start..offsets[back + 1]]), c))
        else None
      else if c < |offsets| && start <= offsets[c] <= |data| then
        Some((Some(data[start..offsets[c]]), c))
      else None
  }

  /** `get(idx)` as written: the last grapheme of the range runs to the end of the data. */
  function GetAsWritten(data: Bytes, offsets: seq<nat>, maxG: nat, idx: nat): Option<Bytes>
    requires WellFormed(data, offsets) && maxG <= |offsets|
  {
    if idx < maxG then
      var start := offsets[idx];
      if idx + 1 == maxG then Some(data[start..])
      else Some(data[start..offsets[idx + 1]])
    else None
  }

  /** `slice()` as written: None stands for the panic when `min` is past the last offset. */
  function SliceAsWritten(data: Bytes, offsets: seq<nat>, minG: nat, maxG: nat): Option<Bytes>
    requires WellFormed(data, offsets) && minG <= maxG <= |offsets|
  {
    if minG != 0 && minG >= |offsets| then None
    else
      BoundsIncrease(data, offsets, minG, maxG);
      var start := if minG == 0 then 0 else offsets[minG];
      var end := if maxG == |offsets| then |data| else offsets[maxG];
      Some(data[start..end])
  }

  /** "012" + U+0924 U+0947 + "345" in UTF-8, with its grapheme offsets. */
  const SAMPLE: Bytes := [0x30, 0x31, 0x32, 0xE0, 0xA4, 0xA4, 0xE0, 0xA5, 0x87, 0x33, 0x34, 0x35]
  const SAMPLE_OFFSETS: seq<nat> := [0, 1, 2, 3, 9, 10, 11]

  /**
   * After `new(SAMPLE, SAMPLE_OFFSETS, 0, 1)` and one `next_back()` (which
   * yields "0" and leaves `curr` 0, `back` -1 and `len()` 0), the written
   * `next()` yields "0" a second time.  The corrected `Next` returns None
   * once `Remaining()` is empty.
   */
  lemma NextAfterBackExhaustedRepeats()
    ensures WellFormed(SAMPLE, SAMPLE_OFFSETS)
    ensures Unit(SAMPLE, SAMPLE_OFFSETS, 0) == [0x30]
    ensures Units(SAMPLE, SAMPLE_OFFSETS, 0, 0) == []
    ensures NextAsWritten(SAMPLE, SAMPLE_OFFSETS, 0, -1) == Some((Some([0x30]), 1))
  {
    assert SAMPLE[0..1] == [0x30];
  }

  /**
   * On the range `[0, 6)` of the sample, the written `get(5)` returns "45"
   * where grapheme 5 is "4".
   */
  lemma GetLastOfShortRange()
    ensures WellFormed(SAMPLE, SAMPLE_OFFSETS)
    ensures GetAsWritten(SAMPLE, SAMPLE_OFFSETS, 6, 5) == Some([0x34, 0x35])
    ensures Unit(SAMPLE, SAMPLE_OFFSETS, 5) == [0x34]
  {
    assert SAMPLE[10..] == [0x34, 0x35];
    assert SAMPLE[10..11] == [0x34];
  }

  /**
   * The empty range `[7, 7)` at the end of the sample makes the written
   * `slice()` index past the offsets, where the empty slice is meant.
   */
  lemma SliceOfEmptyEndRange()
    ensures WellFormed(SAMPLE, SAMPLE_OFFSETS)
    ensures SliceAsWritten(SAMPLE, SAMPLE_OFFSETS, 7, 7) == None
    ensures Flatten(Units(SAMPLE, SAMPLE_OFFSETS, 7, 7)) == []
  {
  }

  /** Away from those cases the written members agree with the corrected ones. */
  lemma AsWrittenAgreesElsewhere(data: Bytes, offsets: seq<nat>, minG: nat, maxG: nat, idx: nat)
    requires WellFormed(data, offsets) && minG <= maxG <= |offsets|
    requires minG == 0 || minG < |offsets|
    requires maxG == |offsets| || idx + 1 != maxG
    ensures SliceAsWritten(data, offsets, minG, maxG) == Some(Flatten(Units(data, offsets, minG, maxG)))
    ensures idx < maxG ==> GetAsWritten(data, offsets, maxG, idx) == Some(Unit(data, offsets, idx))
    ensures idx >= maxG ==> GetAsWritten(data, offsets, maxG, idx) == None
  {
    UnitsConcat(data, offsets, minG, maxG);
    if idx < maxG {
      UnitBytes(data, offsets, idx);
    }
  }
}
