/**
 The shape of what the engine receives from its host: the tokens of a spaCy
 `Doc`, and the string operations the engine borrows without interpreting them.
 */
module Tokens {
  import opened Wrappers

  /**
   One token of a `Doc`: `idx` is its character offset in the analysed text,
   `text` its verbatim text, `isAlpha` and `isStop` the tokenizer's flags and
   `lemmaForm` its lemma (`token.lemma_`) as the tokenizer reports it, not yet
   lowercased. The token's own index `token.i` is its position in the token
   sequence.
   */
  datatype Token = Token(idx: nat, text: string, isAlpha: bool, isStop: bool, lemmaForm: string)

  /**
   The operations the engine calls but does not define: `str.strip`,
   `str.lower`, and the lemma of the first token of the one-word `Doc`
   `nlp(word)`, which is `None` when that `Doc` has no token.
   */
  datatype Nlp = Nlp(strip: string -> string, lower: string -> string, firstLemma: string -> Option<string>)

  /** A content token: alphabetic and not a stop word. */
  predicate IsContent(t: Token) {
    t.isAlpha && !t.isStop
  }

  /** The offset just past the token, `token.idx + len(token.text)`. */
  function End(t: Token): nat {
    t.idx + |t.text|
  }

  /**
   Python's slice `s[a:b]` for non-negative bounds: each bound is clamped to
   the length of `s`, and the slice is empty when the lower bound is not below
   the upper one.
   */
  function PySlice(s: string, a: nat, b: nat): (r: string)
    ensures a <= b <= |s| ==> r == s[a..b]
    ensures b <= a ==> r == []
    ensures a <= |s| < b ==> r == s[a..]
    ensures |s| <= a ==> r == []
  {
    var lo := if a < |s| then a else |s|;
    var hi := if b < |s| then b else |s|;
    if lo < hi then s[lo..hi] else []
  }

  /**
   The tokens are a faithful tokenization of `text`: each token's text is the
   slice of `text` it claims to start at, and each token starts at or after
   the end of the one before it.
   */
  predicate WellFormed(text: string, tokens: seq<Token>) {
    && (forall k :: 0 <= k < |tokens| ==>
          End(tokens[k]) <= |text| && text[tokens[k].idx..End(tokens[k])] == tokens[k].text)
    && (forall k :: 0 < k < |tokens| ==> End(tokens[k - 1]) <= tokens[k].idx)
  }
}
