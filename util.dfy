/**
 * Small text helpers used by the editor: the longest common prefix of the
 * completion candidates, stripping of ANSI control sequences from prompts,
 * and the width of the last prompt line.
 */
module Util {
  import opened Common

  /** `p` is a prefix of every element of `among`. */
  predicate IsCommonPrefix<T(==)>(p: seq<T>, among: seq<seq<T>>)
  {
    forall i | 0 <= i < |among| :: p <= among[i]
  }

  /**
   * The longest non-empty common prefix of the candidates.  A single
   * candidate is returned as it is (even when empty); an empty list, or a
   * list holding an empty candidate, has none.
   */
  method FindLongestCommonPrefix<T(==)>(among: seq<seq<T>>) returns (r: Option<seq<T>>)
    ensures |among| == 0 ==> r == None
    ensures |among| == 1 ==> r == Some(among[0])
    ensures |among| >= 2 && (exists i | 0 <= i < |among| :: among[i] == []) ==> r == None
    ensures |among| >= 2 && r.Some? ==>
      |r.value| > 0 && IsCommonPrefix(r.value, among) &&
      forall p | IsCommonPrefix(p, among) :: |p| <= |r.value|
    ensures |among| >= 2 && r.None? ==> forall p | IsCommonPrefix(p, among) :: p == []
  {
    if |among| == 0 {
      return None;
    } else if |among| == 1 {
      return Some(among[0]);
    }
    for i := 0 to |among|
      invariant forall j | 0 <= j < i :: among[j] != []
    {
      if among[i] == [] {
        assert IsCommonPrefix([], among);
        return None;
      }
    }
    // the first candidate of least length
    var k := 0;
    for i := 1 to |among|
      invariant 0 <= k < |among|
      invariant forall j | 0 <= j < i :: |among[k]| <= |among[j]|
    {
      if |among[i]| < |among[k]| {
        k := i;
      }
    }
    var shortest := among[k];
    var end := |shortest|;
    while end > 0
      invariant 0 <= end <= |shortest|
      invariant forall p | IsCommonPrefix(p, among) :: |p| <= end
    {
      var prefix := shortest[..end];
      var common := PrefixOfAll(prefix, among);
      if common {
        return Some(prefix);
      }
      NoLongerCommonPrefix(among, k, end);
      end := end - 1;
    }
    return None;
  }

  /** The inner `for s in among` test: does every candidate start with `prefix`? */
  method PrefixOfAll<T(==)>(prefix: seq<T>, among: seq<seq<T>>) returns (ok: bool)
    ensures ok <==> IsCommonPrefix(prefix, among)
  {
    var j := 0;
    while j < |among|
      invariant 0 <= j <= |among|
      invariant forall m | 0 <= m < j :: prefix <= among[m]
    {
      if !(prefix <= among[j]) {
        return false;
      }
      j := j + 1;
    }
    return true;
  }

  /** When the first `end` elements of a candidate are not common, no common prefix reaches length `end`. */
  lemma NoLongerCommonPrefix<T>(among: seq<seq<T>>, k: nat, end: nat)
    requires k < |among| && end <= |among[k]|
    requires !IsCommonPrefix(among[k][..end], among)
    requires forall p | IsCommonPrefix(p, among) :: |p| <= end
    ensures forall p | IsCommonPrefix(p, among) :: |p| < end
  {
    forall p | IsCommonPrefix(p, among) ensures |p| < end {
      assert p <= among[k];
    }
  }

  // ANSI control-sequence stripping (ECMA-48 section 5.4, approximated: a
  // CSI sequence ends at the first ASCII letter, an OSC sequence at BEL).

  datatype AnsiState = Norm | Esc | Csi | Osc

  /** The state after reading `c` in state `s`. */
  function Step(s: AnsiState, c: char): AnsiState
  {
    match s
    case Norm => if c == ESC then Esc else Norm
    case Esc => if c == '[' then Csi else if c == ']' then Osc else Norm
    case Csi => if IsAsciiAlphabetic(c) then Norm else Csi
    case Osc => if c == BEL then Norm else Osc
  }

  /** Whether `c`, read in state `s`, is kept in the output. */
  predicate Emits(s: AnsiState, c: char)
  {
    s == Norm && c != ESC
  }

  /** The characters kept when `input` is read starting in state `s`. */
  function Strip(s: AnsiState, input: Text): Text
    decreases |input|
  {
    if input == [] then []
    else (if Emits(s, input[0]) then [input[0]] else []) + Strip(Step(s, input[0]), input[1..])
  }

  /** What `remove_codes` returns: the input itself when it has no ESC. */
  function Cleaned(input: Text): Text
  {
    if ESC in input then Strip(Norm, input) else input
  }

  method RemoveCodes(input: Text) returns (clean: Text)
    ensures clean == Cleaned(input)
  {
    if ESC !in input {
      return input;
    }
    clean := [];
    var s := Norm;
    for i := 0 to |input|
      invariant clean + Strip(s, input[i..]) == Strip(Norm, input)
    {
      var c := input[i];
      assert input[i..][1..] == input[i + 1..];
      match s {
        case Norm =>
          if c == ESC { s := Esc; } else { clean := clean + [c]; }
        case Esc =>
          if c == '[' { s := Csi; } else if c == ']' { s := Osc; } else { s := Norm; }
        case Csi =>
          if IsAsciiAlphabetic(c) { s := Norm; }
        case Osc =>
          if c == BEL { s := Norm; }
      }
    }
    assert input[|input|..] == [];
  }

  lemma {:induction false} StripWithoutEscIsIdentity(input: Text)
    requires ESC !in input
    ensures Strip(Norm, input) == input
  {
    if input != [] {
      assert input[0] in input;
      assert forall c | c in input[1..] :: c in input;
      StripWithoutEscIsIdentity(input[1..]);
    }
  }

  lemma {:induction false} StripHasNoEsc(s: AnsiState, input: Text)
    ensures ESC !in Strip(s, input)
    decreases |input|
  {
    if input != [] {
      StripHasNoEsc(Step(s, input[0]), input[1..]);
    }
  }

  lemma {:induction false} StripIsSubsequence(s: AnsiState, input: Text)
    ensures IsSubsequence(Strip(s, input), input)
    ensures |Strip(s, input)| <= |input|
    decreases |input|
  {
    if input != [] {
      var rest := Strip(Step(s, input[0]), input[1..]);
      StripIsSubsequence(Step(s, input[0]), input[1..]);
      if Emits(s, input[0]) {
        assert Strip(s, input) == [input[0]] + rest;
        assert ([input[0]] + rest)[1..] == rest;
      } else {
        assert Strip(s, input) == rest;
        SubsequenceOfTail(rest, input);
      }
    }
  }

  /** Cleaning removes every ESC and only ever deletes characters. */
  lemma CleanedProperties(input: Text)
    ensures ESC !in input ==> Cleaned(input) == input
    ensures ESC !in Cleaned(input)
    ensures IsSubsequence(Cleaned(input), input)
    ensures |Cleaned(input)| <= |input|
  {
    StripHasNoEsc(Norm, input);
    StripIsSubsequence(Norm, input);
    if ESC !in input {
      SubsequenceReflexive(input);
    }
  }

  /** Outside a sequence, an ordinary character is kept. */
  lemma PlainCharKept(c: char, rest: Text)
    requires c != ESC
    ensures Strip(Norm, [c] + rest) == [c] + Strip(Norm, rest)
  {
    assert ([c] + rest)[1..] == rest;
  }

  /** `ESC [` ... up to and including the first ASCII letter is dropped. */
  lemma CsiDropped(body: Text, final: char, rest: Text)
    requires forall i | 0 <= i < |body| :: !IsAsciiAlphabetic(body[i])
    requires IsAsciiAlphabetic(final)
    ensures Strip(Norm, [ESC, '['] + body + [final] + rest) == Strip(Norm, rest)
  {
    var w := [ESC, '['] + body + [final] + rest;
    assert w[1..] == ['['] + body + [final] + rest;
    assert w[1..][1..] == body + [final] + rest;
    CsiBody(body, final, rest);
  }

  lemma {:induction false} CsiBody(body: Text, final: char, rest: Text)
    requires forall i | 0 <= i < |body| :: !IsAsciiAlphabetic(body[i])
    requires IsAsciiAlphabetic(final)
    ensures Strip(Csi, body + [final] + rest) == Strip(Norm, rest)
  {
    if body == [] {
      assert ([final] + rest)[1..] == rest;
    } else {
      assert (body + [final] + rest)[1..] == body[1..] + [final] + rest;
      CsiBody(body[1..], final, rest);
    }
  }

  /** `ESC ]` ... up to and including BEL is dropped. */
  lemma OscDropped(body: Text, rest: Text)
    requires BEL !in body
    ensures Strip(Norm, [ESC, ']'] + body + [BEL] + rest) == Strip(Norm, rest)
  {
    var w := [ESC, ']'] + body + [BEL] + rest;
    assert w[1..] == [']'] + body + [BEL] + rest;
    assert w[1..][1..] == body + [BEL] + rest;
    OscBody(body, rest);
  }

  lemma {:induction false} OscBody(body: Text, rest: Text)
    requires BEL !in body
    ensures Strip(Osc, body + [BEL] + rest) == Strip(Norm, rest)
  {
    if body == [] {
      assert ([BEL] + rest)[1..] == rest;
    } else {
      assert body[0] in body;
      assert (body + [BEL] + rest)[1..] == body[1..] + [BEL] + rest;
      assert forall c | c in body[1..] :: c in body;
      OscBody(body[1..], rest);
    }
  }

  /** ESC followed by any character other than `[` or `]` drops both. */
  lemma ShortEscapeDropped(c: char, rest: Text)
    requires c != '[' && c != ']'
    ensures Strip(Norm, [ESC, c] + rest) == Strip(Norm, rest)
  {
    var w := [ESC, c] + rest;
    assert w[1..] == [c] + rest;
    assert w[1..][1..] == rest;
  }

  /** The index of the last `c` in `s` (`str::rfind`); what it finds: `LastIndexOfSpec`. */
  function LastIndexOf(s: Text, c: char): (r: Option<nat>)
    ensures r.Some? ==> r.value < |s|
  {
    if s == [] then None
    else if s[|s| - 1] == c then Some(|s| - 1)
    else LastIndexOf(s[..|s| - 1], c)
  }

  /** The index found holds `c` and nothing after it does; none is found only when `s` has no `c`. */
  lemma {:induction false} LastIndexOfSpec(s: Text, c: char)
    ensures var r := LastIndexOf(s, c);
      (r.Some? ==> r.value < |s| && s[r.value] == c && c !in s[r.value + 1..]) &&
      (r.None? ==> c !in s)
    decreases |s|
  {
    if s != [] && s[|s| - 1] != c {
      var r := LastIndexOf(s[..|s| - 1], c);
      LastIndexOfSpec(s[..|s| - 1], c);
      assert r.Some? ==> s[r.value + 1..] == s[..|s| - 1][r.value + 1..] + [s[|s| - 1]];
      assert s == s[..|s| - 1] + [s[|s| - 1]];
    }
  }

  /** The last line of a prompt: the text after its last newline (`handle_prompt`); what it keeps: `HandlePromptSpec`. */
  function HandlePrompt(fullPrompt: Text): Text
  {
    match LastIndexOf(fullPrompt, '\n')
    case None => fullPrompt
    case Some(index) => fullPrompt[index + 1..]
  }

  /** The last line holds no line break and ends the prompt, right after its last line break if there is one. */
  lemma HandlePromptSpec(fullPrompt: Text)
    ensures var r := HandlePrompt(fullPrompt);
      '\n' !in r &&
      |r| <= |fullPrompt| && r == fullPrompt[|fullPrompt| - |r|..] &&
      (|r| < |fullPrompt| ==> fullPrompt[|fullPrompt| - |r| - 1] == '\n') &&
      ('\n' !in fullPrompt ==> r == fullPrompt)
  {
    LastIndexOfSpec(fullPrompt, '\n');
  }

  /** Display width of the last prompt line: its characters once control sequences are removed. */
  function LastPromptLineWidth(s: Text): (r: nat)
    ensures r <= |HandlePrompt(s)|
    ensures ESC !in HandlePrompt(s) ==> r == |HandlePrompt(s)|
  {
    CleanedProperties(HandlePrompt(s));
    |Cleaned(HandlePrompt(s))|
  }
}
