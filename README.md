# French B2 vocabulary engine, modelled in Dafny

This project models the vocabulary-compliance engine of the French B2
simplifier (`french_b2_mcp.py`). The engine has three parts:

- **Vocabulary index** (`load_b2_vocabulary`). The word list is read one word
  per line. Lines are stripped and lowercased, and blank lines are dropped.
  Every word and its lemma go into the vocabulary set. Both keys are also
  written into a rank map, and a later line overwrites an earlier rank.
- **Validator** (`validate_vocabulary`, `get_lemmatized_words`). It makes one
  pass over the tokens of a text. It collects the lowercased surface forms of
  the content tokens, meaning tokens that are alphabetic and not stop words.
  A surface form is a violation when its lowercased lemma is outside the
  vocabulary. The pass also gives the validity flag, the number of distinct
  content words and the coverage percentage.
- **Rank highlighter** (`get_highlighted_text`). It makes one left-to-right
  pass. The text between two consecutive tokens is copied unchanged. A
  content token is wrapped in `**` when its rank is in `[start, 5000)`. The
  rank comes from `positions.get(lemma) or positions.get(surface)`.

The spaCy pipeline is not modelled. Its output for a text is an input to the
model: a sequence of `Token` values with `idx`, `text`, `is_alpha`, `is_stop`
and `lemma_`, where `token.i` is the token's position in the sequence.
Three operations are function-valued fields of the `Nlp` datatype and are left
uninterpreted: `str.strip`, `str.lower`, and "the lemma of the first token of
`nlp(word)`". That last one gives `None` when the one-word `Doc` is empty,
which is the `if doc:` branch of the loader.

Modules, one per component:

- `wrappers.dfy`: `Option`.
- `tokens.dfy`: the token shape, the `Nlp` operations, Python slicing and the
  well-formedness of a tokenization.
- `vocabulary.dfy`: the loader. `RawWords` is the list comprehension over the
  lines. `IndexWords` is the loop. `LastWrite` is the independent last-write
  definition the loop is proved against.
- `validator.dfy`: the content words, violations and content lemmas as
  functions of a token prefix, the exact coverage, and lemmas about them.
- `highlighter.dfy`: the `or` lookup, the bold decision, the rendering of a
  token sequence, and the reconstruction lemmas.
- `simplifier.dfy`: the `FrenchB2Simplifier` class. Its constructor builds the
  vocabulary once, into `const` fields that are read-only from then on. Its
  imperative methods are proved against the functions above.

Points where the code's behaviour is easy to misread:

- **Ranks.** A rank is the position among the NON-BLANK lines, as
  `enumerate(raw_words)` counts it, and not the physical line number.
- **Rank lookup.** The lookup uses Python's `or`, not a null-coalescing
  operator. A lemma of rank 0 counts as missing, so the lookup falls back to
  the surface form. `RankZeroLemmaFallsThrough` states the consequence.
- **End of the band.** The end of the highlighted band is the constant 5000.
  It is not a parameter.
- **Membership.** A lemma is checked against the whole vocabulary set. That
  set holds the surface words as well as their lemmas.
- **Span.** The highlighter emits nothing before the first token or after the
  last one.

## Model

| member | source | states |
|---|---|---|
| `Tokens.PySlice` | french_b2_mcp.py:182 | Python's `text[a:b]`: the plain slice when the bounds are in range, the suffix when only the upper bound is past the end, and empty when the lower bound is not below the upper one or is past the end |
| `Vocabulary.RawWords` | french_b2_mcp.py:29 | there is exactly one rank word per non-blank line, so never more rank words than lines |
| `Vocabulary.RankOfLine` | french_b2_mcp.py:29-35 | file order: the non-blank line `i`, stripped and lowercased, is the rank word at the position given by the number of non-blank lines before it, which is the rank `enumerate` gives it |
| `Vocabulary.LineOfRank` | french_b2_mcp.py:29-35 | the converse: every rank position holds the stripped, lowercased form of a non-blank line that has exactly that many non-blank lines before it |
| `Vocabulary.Writes` | french_b2_mcp.py:36-45 | the keys one rank word writes, as lines 37-45 guard and write them: none when its `Doc` is empty, otherwise the word and its lowercased lemma (one key when they coincide); `LastWrite`, `IsIndexOf` and `IndexMembership` are stated in terms of it |
| `Vocabulary.LastWrite` | french_b2_mcp.py:35-45 | the last position whose word writes a key: none exactly when no word writes it; otherwise a position in range that writes the key, with no later position writing it |
| `Vocabulary.IndexWords` | french_b2_mcp.py:32-47 | the loop's set has the same keys as its rank map; looking up any key gives the last rank word that writes it (itself or its lowercased lemma), or nothing |
| `Vocabulary.LoadVocabulary` | french_b2_mcp.py:27-50 | a missing file gives an empty set and an empty map; otherwise the index of the file's rank words, as `IndexWords` states it |
| `Vocabulary.LineIsIndexed` | french_b2_mcp.py:29-45 | after loading, every non-blank line stripped and lowercased is in the vocabulary, together with its lowercased lemma, whenever its `Doc` is non-empty; the word's stored rank is at least the line's own rank, because a later line may overwrite it |
| `Vocabulary.IndexMembership` | french_b2_mcp.py:35-47 | a key is in the vocabulary exactly when some rank word writes it; a stored rank is below the number of rank words (which `RawWords` states is the number of non-blank lines), its word writes the key, and no later word writes it (last write wins) |
| `Validator.ContentWords` | french_b2_mcp.py:78-82 | `w` is collected exactly when some alphabetic, non-stop token has lowercased text `w` |
| `Validator.Violations` | french_b2_mcp.py:78-86 | `w` is a violation exactly when some alphabetic, non-stop token with lowercased text `w` has a lowercased lemma outside the vocabulary; violations are content words |
| `Validator.ContentLemmas` | french_b2_mcp.py:64-68 | `l` is collected exactly when some alphabetic, non-stop token has lowercased lemma `l` |
| `Validator.Coverage` | french_b2_mcp.py:92-94 | coverage is in [0, 100]; it is 0 without content words, 100 without violations, 0 when every word is a violation, and otherwise equals (total - violations) * 100 / total exactly |
| `Validator.ViolationsBounded` | french_b2_mcp.py:85-92 | there are never more distinct violations than distinct content words, so the coverage numerator is non-negative |
| `Validator.EmptyVocabularyRejectsAll` | french_b2_mcp.py:48-50 | with an empty vocabulary (the missing-file case) the violations are exactly the content words, and coverage is 0 once there is a content word |
| `Validator.EveryWordViolates` | french_b2_mcp.py:48-50 | with an empty vocabulary every content word is a violation, and the two sets are equal |
| `Validator.NoContentIsValid` | french_b2_mcp.py:88-94 | without any content token (an empty text in particular) there are no content words and no violations, and the coverage of those tokens is 0 |
| `Validator.ValidIffLemmasCovered` | french_b2_mcp.py:84-89 | there is no violation exactly when every content lemma is in the vocabulary |
| `Highlighter.RankLookup` | french_b2_mcp.py:192-194 | the lemma's rank when it is non-zero; otherwise the surface form's rank, whether 0 or absent, because `or` treats 0 as missing |
| `Highlighter.ShouldBold` | french_b2_mcp.py:187-196 | a bolded token is a content token, the band is non-empty, and the lemma's or the surface form's rank lies in `[start, 5000)`; a content token is bolded when its lemma has a non-zero rank in the band, or when its lemma has no rank and its surface form has one in the band |
| `Highlighter.Marks` | french_b2_mcp.py:177-196 | one mark per token, and each mark says whether that token is bolded |
| `Highlighter.Gap` | french_b2_mcp.py:179-183 | the first token gets no gap; a later one gets the text between the previous token's end and its own start when the two are in order and the token starts within the text, and nothing when the tokens overlap; a gap is never longer than the text |
| `Highlighter.Rendered` | french_b2_mcp.py:175-203 | the output for the first `n` tokens: the output for the first `n - 1`, then the gap, then the piece of token `n - 1` (its content is stated by `RenderedPrefix`, `PieceAt`, `PieceAtOffset` and `RenderedLength`) |
| `Highlighter.PlainIsSpan` | french_b2_mcp.py:177-203 | for a well-formed tokenization, the output with no token bolded is exactly `text[first.idx : last.idx + len(last.text)]` |
| `Highlighter.RenderedLength` | french_b2_mcp.py:175-203 | for any gaps, the output's length is the gaps' total length plus the token texts' total length plus four for each bolded token |
| `Highlighter.RenderedPrefix` | french_b2_mcp.py:175-203 | the output is only ever appended to: the output for the first `k` tokens is a prefix of the output for the first `n` |
| `Highlighter.PieceAt` | french_b2_mcp.py:177-201 | the output for `n` tokens starts with the output for the tokens before token `k`, then token `k`'s gap, then its piece: `**` + text + `**` when it is bolded, its bare text otherwise |
| `Highlighter.PieceAtOffset` | french_b2_mcp.py:177-201 | token `k`'s gap sits right after the output for the tokens before it, and its piece sits right after its gap, at `PieceStart` |
| `Highlighter.EmptyBandMarksNothing` | french_b2_mcp.py:196 | with a band start at or above 5000 no token is bolded |
| `Highlighter.EmptyBandIsSpan` | french_b2_mcp.py:174-203 | with a band start at or above 5000 and a well-formed tokenization the output is exactly the covered span of the text |
| `Highlighter.RankZeroLemmaFallsThrough` | french_b2_mcp.py:187-196 | a content token whose lemma has rank 0 and whose surface form has no rank gets no rank and is not bolded, even for a band starting at 0 |
| `Simplifier.FrenchB2Simplifier.constructor` | french_b2_mcp.py:56-57 | the object's vocabulary and rank map are the loader's result for the given file |
| `Simplifier.FrenchB2Simplifier.GetLemmatizedWords` | french_b2_mcp.py:59-70 | the result is exactly the set of lowercased lemmas of the alphabetic, non-stop tokens |
| `Simplifier.FrenchB2Simplifier.ValidateVocabulary` | french_b2_mcp.py:72-95 | the violations are the set above and lie inside the content words; `is_valid` holds exactly when there is no violation; the unique-word count is the number of content words; coverage is the exact ratio, lies in [0, 100], and is 0 for an empty vocabulary with at least one content word or for a text without content words |
| `Simplifier.FrenchB2Simplifier.GetB2ReplacementSuggestions` | french_b2_mcp.py:134-142 | the keys are exactly the given words, and each maps to `[find B2 equivalent for '<word>']` |
| `Simplifier.FrenchB2Simplifier.TokenPiece` | french_b2_mcp.py:185-201 | a token's output is its text, wrapped in `**` exactly when it is alphabetic, not a stop word and its `or`-lookup rank lies in `[start, 5000)`; a non-content token is copied unchanged |
| `Simplifier.FrenchB2Simplifier.GetHighlightedText` | french_b2_mcp.py:169-203 | the band starts at 3000 unless told otherwise; the output is each token's gap, copied from the text, followed by the token's own text; the token is wrapped in `**` exactly when it is alphabetic, not a stop word, and its `or`-lookup rank lies in `[start, 5000)` |

## Left out

- The spaCy model (`spacy.load`, `nlp(text)`, `nlp(word)`) is a foreign statistical model. Its token sequences and the lemma of a single word are inputs to the model.
- `str.strip` and `str.lower` are uninterpreted functions. Their Unicode semantics are not modelled.
- Opening and reading `words.txt` is not modelled. The loader takes either the file's lines or a "missing" marker. Encoding errors and other I/O exceptions, which the source does not catch, are not modelled.
- The warning logged for a missing file is not modelled.
- Coverage is an exact rational (Dafny `real`), not a binary floating-point number.
- `ValidationResult` holds the violations as a set. The source returns `list(violations)` in an unspecified order, and only its report builders sort it.
- `create_validation_report`, `simplify_to_b2` and `get_b2_grammar_requirements` are not modelled. They are Markdown templates with `:.1f` float formatting.
- The MCP server is not modelled: `handle_list_tools`, `handle_call_tool` (including its empty-text guard), `main`, asyncio, the stdio transport and logging.
- The dictionary returned by `get_b2_replacement_suggestions` is a `map`, so its insertion order is not modelled. No caller in the source depends on that order.
- `Simplifier.FrenchB2Simplifier.constructor`: the file name `words.txt` is not a parameter of the model. The file's content is passed instead.
