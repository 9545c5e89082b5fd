/**
 * The user-defined prompt: a main text with an optional prefix and suffix
 * that key bindings may set (the vi mode indicator, for instance).
 */
module Prompts {
  import opened Common

  datatype Prompt = Prompt(prefix: Option<Text>, prompt: Text, suffix: Option<Text>)

  /** `Prompt::from`: a prompt with no prefix and no suffix. */
  function From(prompt: Text): (r: Prompt)
    ensures r.prefix == None && r.suffix == None && r.prompt == prompt
  {
    Prompt(None, prompt, None)
  }

  /** The prefix, or "" when none is set. */
  function Prefix(p: Prompt): Text
  {
    match p.prefix
    case Some(prefix) => prefix
    case None => ""
  }

  /** The suffix, or "" when none is set. */
  function Suffix(p: Prompt): Text
  {
    match p.suffix
    case Some(suffix) => suffix
    case None => ""
  }

  /** The displayed prompt: prefix, then the prompt text, then the suffix. */
  function ToString(p: Prompt): (r: Text)
    ensures |r| == |Prefix(p)| + |p.prompt| + |Suffix(p)|
    ensures p.prefix.Some? ==> r[..|p.prefix.value|] == p.prefix.value
    ensures r[|Prefix(p)|..|Prefix(p)| + |p.prompt|] == p.prompt
    ensures p.suffix.Some? ==> r[|r| - |p.suffix.value|..] == p.suffix.value
    ensures p.prefix.None? && p.suffix.None? ==> r == p.prompt
  {
    Prefix(p) + p.prompt + Suffix(p)
  }

  /** A prompt built with `from` displays exactly its text (the documented example). */
  lemma {:induction false} FromDisplaysItself(text: Text)
    ensures Prefix(From(text)) == "" && Suffix(From(text)) == ""
    ensures ToString(From(text)) == text
    ensures ToString(From("prompt$ ")) == "prompt$ "
  {
  }
}
