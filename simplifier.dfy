/**
 The `FrenchB2Simplifier` object: the vocabulary index built once when it is
 created, and the per-call operations that read it.
 */
module Simplifier {
  import opened Wrappers
  import opened Tokens
  import opened Vocabulary
  import opened Validator
  import opened Highlighter

  /** The placeholder suggested for a word outside the vocabulary. */
  function Suggestion(word: string): string {
    "[find B2 equivalent for '" + word + "']"
  }

  class FrenchB2Simplifier {
    /** The host's string operations and lemmatizer. */
    const nlp: Nlp
    /** `self.b2_vocab`: every rank word together with its lemma. */
    const b2Vocab: set<string>
    /** `self.word_positions`: the rank of every key of `b2Vocab`. */
    const wordPositions: map<string, nat>

    /** Loads the vocabulary index once; it is never changed afterwards. */
    constructor (vocabFile: VocabFile, nlp: Nlp)
      ensures vocabFile.Missing? ==> b2Vocab == {} && wordPositions == map[]
      ensures vocabFile.Present? ==> IsIndexOf(RawWords(vocabFile.lines, nlp), nlp, b2Vocab, wordPositions)
      ensures this.nlp == nlp
    {
      var vocab, positions := LoadVocabulary(vocabFile, nlp);
      this.nlp := nlp;
      b2Vocab := vocab;
      wordPositions := positions;
    }

    /** The lowercased lemmas of the content tokens of the text's `Doc`. */
    method GetLemmatizedWords(doc: seq<Token>) returns (lemmatizedWords: set<string>)
      ensures lemmatizedWords == ContentLemmas(doc, nlp.lower, |doc|)
      ensures forall l :: l in lemmatizedWords <==>
                exists k :: 0 <= k < |doc| && IsContent(doc[k]) && nlp.lower(doc[k].lemmaForm) == l
    {
      lemmatizedWords := {};
      for i := 0 to |doc|
        invariant lemmatizedWords == ContentLemmas(doc, nlp.lower, i)
      {
        var token := doc[i];
        if token.isAlpha && !token.isStop {
          var lemmaWord := nlp.lower(token.lemmaForm);
          lemmatizedWords := lemmatizedWords + {lemmaWord};
        }
      }
    }

    /**
     Checks the content words of the text's `Doc` against the vocabulary: the
     violations are the surface forms whose lemma is missing, the text is
     valid exactly when there is none, and the coverage is the exact share of
     words that are not violations.
     */
    method ValidateVocabulary(doc: seq<Token>) returns (result: ValidationResult)
      ensures result.violations == Violations(doc, b2Vocab, nlp.lower, |doc|)
      ensures result.violations <= ContentWords(doc, nlp.lower, |doc|)
      ensures result.totalUniqueWords == |ContentWords(doc, nlp.lower, |doc|)|
      ensures result.isValid <==> result.violations == {}
      ensures |result.violations| <= result.totalUniqueWords
      ensures result.coverage == Coverage(result.totalUniqueWords, |result.violations|)
      ensures 0.0 <= result.coverage <= 100.0
      ensures result.totalUniqueWords == 0 ==> result.isValid && result.coverage == 0.0
      ensures b2Vocab == {} && result.totalUniqueWords > 0 ==> result.coverage == 0.0
    {
      var violations: set<string> := {};
      var allWords: set<string> := {};
      for i := 0 to |doc|
        invariant allWords == ContentWords(doc, nlp.lower, i)
        invariant violations == Violations(doc, b2Vocab, nlp.lower, i)
      {
        var token := doc[i];
        assert ContentWords(doc, nlp.lower, i + 1)
            == ContentWords(doc, nlp.lower, i) + if IsContent(token) then {nlp.lower(token.text)} else {};
        assert Violations(doc, b2Vocab, nlp.lower, i + 1)
            == Violations(doc, b2Vocab, nlp.lower, i)
               + if IsContent(token) && nlp.lower(token.lemmaForm) !in b2Vocab then {nlp.lower(token.text)} else {};
        if token.isAlpha && !token.isStop {
          var originalWord := nlp.lower(token.text);
          var lemmaWord := nlp.lower(token.lemmaForm);
          allWords := allWords + {originalWord};
          if lemmaWord !in b2Vocab {
            violations := violations + {originalWord};
          }
        }
      }
      ViolationsBounded(doc, b2Vocab, nlp.lower, |doc|);
      if b2Vocab == {} {
        EmptyVocabularyRejectsAll(doc, nlp.lower, |doc|);
      }
      result := ValidationResult(|violations| == 0, violations, |allWords|, Coverage(|allWords|, |violations|));
    }

    /** One suggestion per given word, each the fixed placeholder for that word. */
    method GetB2ReplacementSuggestions(nonB2Words: seq<string>) returns (suggestions: map<string, string>)
      ensures suggestions.Keys == set w | w in nonB2Words
      ensures forall w :: w in suggestions ==> suggestions[w] == Suggestion(w)
    {
      suggestions := map[];
      for i := 0 to |nonB2Words|
        invariant suggestions.Keys == set w | w in nonB2Words[..i]
        invariant forall w :: w in suggestions ==> suggestions[w] == Suggestion(w)
      {
        var word := nonB2Words[i];
        assert nonB2Words[..i + 1] == nonB2Words[..i] + [word];
        suggestions := suggestions[word := Suggestion(word)];
      }
      assert nonB2Words[..|nonB2Words|] == nonB2Words;
    }

    /**
     What the highlighter emits for one token: its text, wrapped in `**` when
     it is alphabetic, not a stop word, and the `or`-lookup of its lowercased
     lemma and surface form gives a rank in `[startHighlightFrom, 5000)`.
     */
    method TokenPiece(token: Token, startHighlightFrom: int) returns (piece: string)
      ensures piece == Piece(token, ShouldBold(wordPositions, nlp.lower, startHighlightFrom, token))
      ensures !IsContent(token) ==> piece == token.text
    {
      var tokenText := token.text;
      if token.isAlpha && !token.isStop {
        var lemmaWord := nlp.lower(token.lemmaForm);
        var originalWord := nlp.lower(token.text);
        var position := PyOr(Get(wordPositions, lemmaWord), Get(wordPositions, originalWord));
        if position.Some? && startHighlightFrom <= position.value < EndRank {
          piece := "**" + tokenText + "**";
        } else {
          piece := tokenText;
        }
      } else {
        piece := tokenText;
      }
    }

    /**
     The text the tokens cover, with every content word whose rank lies in
     `[startHighlightFrom, 5000)` wrapped in `**`, and every gap between two
     tokens copied from `text`.
     */
    method GetHighlightedText(text: string, doc: seq<Token>, startHighlightFrom: int := 3000) returns (result: string)
      ensures result == Rendered(Gaps(text, doc), doc, Marks(doc, wordPositions, nlp.lower, startHighlightFrom), |doc|)
    {
      ghost var gaps := Gaps(text, doc);
      ghost var marks := Marks(doc, wordPositions, nlp.lower, startHighlightFrom);
      result := "";
      for i := 0 to |doc|
        invariant result == Rendered(gaps, doc, marks, i)
      {
        var token := doc[i];
        if i > 0 {
          var prevToken := doc[i - 1];
          var spaceBetween := PySlice(text, End(prevToken), token.idx);
          result := result + spaceBetween;
        }
        var piece := TokenPiece(token, startHighlightFrom);
        result := result + piece;
      }
    }
  }
}
