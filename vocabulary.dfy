/**
 Building the ranked B2 vocabulary index from the lines of the word list
 (`load_b2_vocabulary`).
 */
module Vocabulary {
  import opened Wrappers
  import opened Tokens

  /** The word list as the loader finds it: absent, or present with its lines. */
  datatype VocabFile = Missing | Present(lines: seq<string>)

  /** The number of lines before line `n` whose stripped form is not blank. */
  function NonBlankBefore(lines: seq<string>, nlp: Nlp, n: nat): nat
    requires n <= |lines|
  {
    if n == 0 then 0
    else NonBlankBefore(lines, nlp, n - 1) + if nlp.strip(lines[n - 1]) != "" then 1 else 0
  }

  /** The rank words of the first `n` lines: one per non-blank line among them. */
  function RawPrefix(lines: seq<string>, nlp: Nlp, n: nat): (raw: seq<string>)
    requires n <= |lines|
    ensures |raw| == NonBlankBefore(lines, nlp, n) <= n
  {
    if n == 0 then []
    else
      var rest := RawPrefix(lines, nlp, n - 1);
      var line := lines[n - 1];
      if nlp.strip(line) != "" then rest + [nlp.lower(nlp.strip(line))] else rest
  }

  /**
   `[line.strip().lower() for line in f if line.strip()]`: the rank words of
   the whole file, one per non-blank line.
   */
  function RawWords(lines: seq<string>, nlp: Nlp): (raw: seq<string>)
    ensures |raw| == NonBlankBefore(lines, nlp, |lines|) <= |lines|
  {
    RawPrefix(lines, nlp, |lines|)
  }

  /**
   File order: the non-blank line `i`, stripped and lowercased, is the rank
   word at the position given by the number of non-blank lines before it,
   which is the rank `enumerate` gives it.
   */
  lemma RankOfLine(lines: seq<string>, nlp: Nlp, i: nat)
    requires i < |lines| && nlp.strip(lines[i]) != ""
    ensures NonBlankBefore(lines, nlp, i) < |RawWords(lines, nlp)|
    ensures RawWords(lines, nlp)[NonBlankBefore(lines, nlp, i)] == nlp.lower(nlp.strip(lines[i]))
  {
    RankOfLineBelow(lines, nlp, |lines|, i);
  }

  /** `RankOfLine` for the rank words of the first `n` lines. */
  lemma {:induction false} RankOfLineBelow(lines: seq<string>, nlp: Nlp, n: nat, i: nat)
    requires i < n <= |lines| && nlp.strip(lines[i]) != ""
    ensures NonBlankBefore(lines, nlp, i) < |RawPrefix(lines, nlp, n)|
    ensures RawPrefix(lines, nlp, n)[NonBlankBefore(lines, nlp, i)] == nlp.lower(nlp.strip(lines[i]))
  {
    if i < n - 1 {
      RankOfLineBelow(lines, nlp, n - 1, i);
    }
  }

  /**
   The converse: every rank position holds the stripped, lowercased form of
   the non-blank line that has exactly that many non-blank lines before it.
   */
  function LineOfRank(lines: seq<string>, nlp: Nlp, p: nat): (i: nat)
    requires p < |RawWords(lines, nlp)|
    ensures i < |lines| && nlp.strip(lines[i]) != "" && NonBlankBefore(lines, nlp, i) == p
    ensures RawWords(lines, nlp)[p] == nlp.lower(nlp.strip(lines[i]))
  {
    LineOfRankBelow(lines, nlp, |lines|, p)
  }

  /** `LineOfRank` for the rank words of the first `n` lines. */
  function LineOfRankBelow(lines: seq<string>, nlp: Nlp, n: nat, p: nat): (i: nat)
    requires n <= |lines| && p < |RawPrefix(lines, nlp, n)|
    ensures i < n && nlp.strip(lines[i]) != "" && NonBlankBefore(lines, nlp, i) == p
    ensures RawPrefix(lines, nlp, n)[p] == nlp.lower(nlp.strip(lines[i]))
  {
    if p < |RawPrefix(lines, nlp, n - 1)| then LineOfRankBelow(lines, nlp, n - 1, p) else n - 1
  }

  /**
   The keys the loader writes for one rank word: the word itself and its
   lowercased lemma, or nothing at all when the word's `Doc` is empty.
   */
  predicate Writes(nlp: Nlp, word: string, k: string) {
    && nlp.firstLemma(word).Some?
    && (k == word || k == nlp.lower(nlp.firstLemma(word).value))
  }

  /** Python's `d.get(k)`. */
  function Get(d: map<string, nat>, k: string): Option<nat> {
    if k in d then Some(d[k]) else None
  }

  /**
   The last position of `raw` whose word writes key `k`, or `None` when no
   word writes it: the rank a key ends up with when later writes win.
   */
  function LastWrite(raw: seq<string>, nlp: Nlp, k: string): (r: Option<nat>)
    ensures r.None? <==> forall p :: 0 <= p < |raw| ==> !Writes(nlp, raw[p], k)
    ensures r.Some? ==> r.value < |raw| && Writes(nlp, raw[r.value], k)
    ensures r.Some? ==> forall q :: r.value < q < |raw| ==> !Writes(nlp, raw[q], k)
  {
    if raw == [] then None
    else if Writes(nlp, raw[|raw| - 1], k) then Some(|raw| - 1)
    else
      var init := raw[..|raw| - 1];
      assert forall p :: 0 <= p < |init| ==> init[p] == raw[p];
      LastWrite(init, nlp, k)
  }

  /**
   `vocab` and `positions` are the index of the rank words `raw`: the rank
   map has exactly the vocabulary as its keys, and looking a key up in it
   gives the last position that writes the key, or nothing when no rank word
   writes it.
   */
  ghost predicate IsIndexOf(raw: seq<string>, nlp: Nlp, vocab: set<string>, positions: map<string, nat>) {
    && positions.Keys == vocab
    && forall k :: Get(positions, k) == LastWrite(raw, nlp, k)
  }

  /** The loop of the loader over the rank words, adding keys and overwriting ranks. */
  method IndexWords(raw: seq<string>, nlp: Nlp) returns (vocab: set<string>, positions: map<string, nat>)
    ensures IsIndexOf(raw, nlp, vocab, positions)
  {
    vocab, positions := {}, map[];
    var position := 0;
    while position < |raw|
      invariant position <= |raw|
      invariant IsIndexOf(raw[..position], nlp, vocab, positions)
    {
      var word := raw[position];
      assert raw[..position + 1][..position] == raw[..position];
      var doc := nlp.firstLemma(word);
      if doc.Some? {
        var lemmaWord := nlp.lower(doc.value);
        vocab := vocab + {lemmaWord};
        vocab := vocab + {word};
        positions := positions[lemmaWord := position];
        positions := positions[word := position];
      }
      position := position + 1;
    }
    assert raw[..position] == raw;
  }

  /**
   The loader: a missing file yields an empty vocabulary and an empty rank
   map; otherwise the index of the file's rank words.
   */
  method LoadVocabulary(file: VocabFile, nlp: Nlp) returns (vocab: set<string>, positions: map<string, nat>)
    ensures file.Missing? ==> vocab == {} && positions == map[]
    ensures file.Present? ==> IsIndexOf(RawWords(file.lines, nlp), nlp, vocab, positions)
  {
    match file
    case Missing =>
      vocab, positions := {}, map[];
    case Present(lines) =>
      var rawWords := RawWords(lines, nlp);
      vocab, positions := IndexWords(rawWords, nlp);
  }

  /**
   Every non-blank line, stripped and lowercased, is in the vocabulary
   together with its lowercased lemma, unless its `Doc` is empty.
   */
  lemma LineIsIndexed(lines: seq<string>, nlp: Nlp, vocab: set<string>, positions: map<string, nat>, i: nat)
    requires IsIndexOf(RawWords(lines, nlp), nlp, vocab, positions)
    requires i < |lines| && nlp.strip(lines[i]) != ""
    requires nlp.firstLemma(nlp.lower(nlp.strip(lines[i]))).Some?
    ensures nlp.lower(nlp.strip(lines[i])) in vocab
    ensures nlp.lower(nlp.firstLemma(nlp.lower(nlp.strip(lines[i]))).value) in vocab
    ensures positions[nlp.lower(nlp.strip(lines[i]))] >= NonBlankBefore(lines, nlp, i)
  {
    var raw := RawWords(lines, nlp);
    var w := nlp.lower(nlp.strip(lines[i]));
    var l := nlp.lower(nlp.firstLemma(w).value);
    RankOfLine(lines, nlp, i);
    var p := NonBlankBefore(lines, nlp, i);
    assert Writes(nlp, raw[p], w) && Writes(nlp, raw[p], l);
    assert LastWrite(raw, nlp, w).Some? && LastWrite(raw, nlp, l).Some?;
    assert Get(positions, w).Some? && Get(positions, l).Some?;
  }

  /**
   Membership in the vocabulary is "some rank word writes the key", and every
   stored rank is the position of a rank word, so it is below the number of
   non-blank lines.
   */
  lemma IndexMembership(raw: seq<string>, nlp: Nlp, vocab: set<string>, positions: map<string, nat>, k: string)
    requires IsIndexOf(raw, nlp, vocab, positions)
    ensures k in vocab <==> exists p :: 0 <= p < |raw| && Writes(nlp, raw[p], k)
    ensures k in positions ==> positions[k] < |raw| && Writes(nlp, raw[positions[k]], k)
    ensures k in positions ==> forall q :: positions[k] < q < |raw| ==> !Writes(nlp, raw[q], k)
  {
    assert Get(positions, k) == LastWrite(raw, nlp, k);
  }
}
