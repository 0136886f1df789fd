/**
 What the validator computes from the tokens of a text: the content words, the
 violations, the content lemmas and the coverage score (`validate_vocabulary`,
 `get_lemmatized_words`).
 */
module Validator {
  import opened Tokens

  /**
   The lowercased surface forms of the content tokens among the first `n`
   tokens.
   */
  function ContentWords(tokens: seq<Token>, lower: string -> string, n: nat): (words: set<string>)
    requires n <= |tokens|
    ensures forall w :: w in words <==>
              exists k :: 0 <= k < n && IsContent(tokens[k]) && lower(tokens[k].text) == w
  {
    if n == 0 then {}
    else
      var t := tokens[n - 1];
      ContentWords(tokens, lower, n - 1) + if IsContent(t) then {lower(t.text)} else {}
  }

  /**
   The lowercased surface forms of the content tokens among the first `n`
   tokens whose lowercased lemma is not in `vocab`.
   */
  function Violations(tokens: seq<Token>, vocab: set<string>, lower: string -> string, n: nat): (words: set<string>)
    requires n <= |tokens|
    ensures forall w :: w in words <==>
              exists k :: 0 <= k < n && IsContent(tokens[k]) && lower(tokens[k].lemmaForm) !in vocab
                                     && lower(tokens[k].text) == w
    ensures words <= ContentWords(tokens, lower, n)
  {
    if n == 0 then {}
    else
      var t := tokens[n - 1];
      Violations(tokens, vocab, lower, n - 1)
        + if IsContent(t) && lower(t.lemmaForm) !in vocab then {lower(t.text)} else {}
  }

  /** The lowercased lemmas of the content tokens among the first `n` tokens. */
  function ContentLemmas(tokens: seq<Token>, lower: string -> string, n: nat): (lemmas: set<string>)
    requires n <= |tokens|
    ensures forall l :: l in lemmas <==>
              exists k :: 0 <= k < n && IsContent(tokens[k]) && lower(tokens[k].lemmaForm) == l
  {
    if n == 0 then {}
    else
      var t := tokens[n - 1];
      ContentLemmas(tokens, lower, n - 1) + if IsContent(t) then {lower(t.lemmaForm)} else {}
  }

  /**
   The coverage percentage of `total` distinct content words of which
   `violating` are violations: the share of words that are not violations,
   times 100, and 0 when there are no content words. Exact, not a float.
   */
  function Coverage(total: nat, violating: nat): (c: real)
    requires violating <= total
    ensures 0.0 <= c <= 100.0
    ensures total == 0 ==> c == 0.0
    ensures total > 0 && violating == 0 ==> c == 100.0
    ensures total > 0 && violating == total ==> c == 0.0
    ensures total > 0 ==> c * total as real == (total - violating) as real * 100.0
  {
    if total == 0 then 0.0
    else (total - violating) as real / total as real * 100.0
  }

  /** A subset is no larger than its superset. */
  lemma {:induction false} SubsetNoLarger(a: set<string>, b: set<string>)
    requires a <= b
    ensures |a| <= |b|
    decreases b
  {
    if a != {} {
      var x :| x in a;
      SubsetNoLarger(a - {x}, b - {x});
    }
  }

  /** There are never more violations than content words. */
  lemma ViolationsBounded(tokens: seq<Token>, vocab: set<string>, lower: string -> string, n: nat)
    requires n <= |tokens|
    ensures |Violations(tokens, vocab, lower, n)| <= |ContentWords(tokens, lower, n)|
  {
    SubsetNoLarger(Violations(tokens, vocab, lower, n), ContentWords(tokens, lower, n));
  }

  /** The dictionary `validate_vocabulary` returns; the violations are a set, their listing order being unspecified. */
  datatype ValidationResult = ValidationResult(isValid: bool, violations: set<string>, totalUniqueWords: nat, coverage: real)

  /**
   With an empty vocabulary every content word is a violation, so a text with
   at least one content word has coverage 0.
   */
  lemma EmptyVocabularyRejectsAll(tokens: seq<Token>, lower: string -> string, n: nat)
    requires n <= |tokens|
    ensures Violations(tokens, {}, lower, n) == ContentWords(tokens, lower, n)
    ensures |ContentWords(tokens, lower, n)| > 0 ==>
              Coverage(|ContentWords(tokens, lower, n)|, |Violations(tokens, {}, lower, n)|) == 0.0
  {
    EveryWordViolates(tokens, lower, n);
  }

  /** Without a vocabulary every content word is a violation. */
  lemma {:induction false} EveryWordViolates(tokens: seq<Token>, lower: string -> string, n: nat)
    requires n <= |tokens|
    ensures Violations(tokens, {}, lower, n) == ContentWords(tokens, lower, n)
  {
    if n > 0 {
      EveryWordViolates(tokens, lower, n - 1);
      var t := tokens[n - 1];
      var added := if IsContent(t) then {lower(t.text)} else {};
      assert Violations(tokens, {}, lower, n) == Violations(tokens, {}, lower, n - 1) + added;
      assert ContentWords(tokens, lower, n) == ContentWords(tokens, lower, n - 1) + added;
    }
  }

  /** A text without content tokens (in particular, an empty text) is valid with coverage 0. */
  lemma NoContentIsValid(tokens: seq<Token>, vocab: set<string>, lower: string -> string)
    requires forall k :: 0 <= k < |tokens| ==> !IsContent(tokens[k])
    ensures ContentWords(tokens, lower, |tokens|) == {}
    ensures Violations(tokens, vocab, lower, |tokens|) == {}
    ensures Coverage(|ContentWords(tokens, lower, |tokens|)|, |Violations(tokens, vocab, lower, |tokens|)|) == 0.0
  {
  }

  /**
   A full vocabulary check: when every content lemma is in the vocabulary
   there is no violation, and conversely.
   */
  lemma ValidIffLemmasCovered(tokens: seq<Token>, vocab: set<string>, lower: string -> string)
    ensures Violations(tokens, vocab, lower, |tokens|) == {} <==> ContentLemmas(tokens, lower, |tokens|) <= vocab
  {
    var n := |tokens|;
    var bad := Violations(tokens, vocab, lower, n);
    if bad == {} {
      forall l | l in ContentLemmas(tokens, lower, n) ensures l in vocab {
        var k :| 0 <= k < n && IsContent(tokens[k]) && lower(tokens[k].lemmaForm) == l;
        var w := lower(tokens[k].text);
        assert l !in vocab ==> w in bad;
      }
    } else {
      var w :| w in bad;
      var k :| 0 <= k < n && IsContent(tokens[k]) && lower(tokens[k].lemmaForm) !in vocab && lower(tokens[k].text) == w;
      assert lower(tokens[k].lemmaForm) in ContentLemmas(tokens, lower, n);
    }
  }
}
