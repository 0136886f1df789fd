/**
 What the rank highlighter produces (`get_highlighted_text`): the text between
 the first token's start and the last token's end, with `**` around every
 content word whose rank lies in the highlighted band.
 */
module Highlighter {
  import opened Wrappers
  import opened Tokens
  import opened Vocabulary

  /** The fixed upper end of the highlighted band: ranks from `start` up to, and not including, 5000. */
  const EndRank: int := 5000

  /** Python's truth value of an optional rank: `None` and `0` are both false. */
  predicate Truthy(o: Option<nat>) {
    o.Some? && o.value != 0
  }

  /** Python's `a or b`: `a` when it is truthy, `b` otherwise. */
  function PyOr(a: Option<nat>, b: Option<nat>): Option<nat> {
    if Truthy(a) then a else b
  }

  /**
   `positions.get(lemma) or positions.get(surface)`: the lemma's rank when it
   has a non-zero one; otherwise, because Python's `or` treats the rank 0 as
   missing, whatever the surface form's lookup gives, itself possibly 0 or
   nothing.
   */
  function RankLookup(positions: map<string, nat>, lemmaKey: string, surface: string): (r: Option<nat>)
    ensures lemmaKey in positions && positions[lemmaKey] > 0 ==> r == Some(positions[lemmaKey])
    ensures !(lemmaKey in positions && positions[lemmaKey] > 0) ==>
              (r.Some? <==> surface in positions) && (r.Some? ==> r.value == positions[surface])
  {
    PyOr(Get(positions, lemmaKey), Get(positions, surface))
  }

  /**
   Whether the highlighter bolds token `t`: it is a content token, the lookup
   of its lowercased lemma and surface form yields a rank, and that rank is
   in `[start, EndRank)`.
   */
  predicate ShouldBold(positions: map<string, nat>, lower: string -> string, start: int, t: Token): (b: bool)
    ensures b ==> IsContent(t) && start < EndRank
    ensures b ==> || (lower(t.lemmaForm) in positions && start <= positions[lower(t.lemmaForm)] < EndRank)
                  || (lower(t.text) in positions && start <= positions[lower(t.text)] < EndRank)
    ensures (IsContent(t) && lower(t.lemmaForm) in positions && 0 < positions[lower(t.lemmaForm)]
             && start <= positions[lower(t.lemmaForm)] < EndRank) ==> b
    ensures (IsContent(t) && lower(t.lemmaForm) !in positions && lower(t.text) in positions
             && start <= positions[lower(t.text)] < EndRank) ==> b
  {
    && IsContent(t)
    && var rank := RankLookup(positions, lower(t.lemmaForm), lower(t.text));
       rank.Some? && start <= rank.value < EndRank
  }

  /** For each token, whether it is bolded. */
  function Marks(tokens: seq<Token>, positions: map<string, nat>, lower: string -> string, start: int): (marks: seq<bool>)
    ensures |marks| == |tokens|
    ensures forall k :: 0 <= k < |tokens| ==> marks[k] == ShouldBold(positions, lower, start, tokens[k])
  {
    seq(|tokens|, k requires 0 <= k < |tokens| => ShouldBold(positions, lower, start, tokens[k]))
  }

  /** No token bolded. */
  function NoMarks(n: nat): seq<bool> {
    seq(n, _ => false)
  }

  /** How a token is emitted: its own text, wrapped in `**` when it is bolded. */
  function Piece(t: Token, bold: bool): string {
    if bold then "**" + t.text + "**" else t.text
  }

  /**
   The text emitted before token `k`: nothing before the first token, and
   otherwise the slice of `text` from the end of the previous token to the
   start of this one.
   */
  function Gap(text: string, tokens: seq<Token>, k: nat): (g: string)
    requires k < |tokens|
    ensures k == 0 ==> g == ""
    ensures k > 0 && End(tokens[k - 1]) <= tokens[k].idx <= |text| ==> g == text[End(tokens[k - 1])..tokens[k].idx]
    ensures k > 0 && tokens[k].idx <= End(tokens[k - 1]) ==> g == ""
    ensures |g| <= |text|
  {
    if k == 0 then "" else PySlice(text, End(tokens[k - 1]), tokens[k].idx)
  }

  /** The gap before every token. */
  function Gaps(text: string, tokens: seq<Token>): (gaps: seq<string>)
    ensures |gaps| == |tokens|
    ensures forall k :: 0 <= k < |tokens| ==> gaps[k] == Gap(text, tokens, k)
  {
    seq(|tokens|, k requires 0 <= k < |tokens| => Gap(text, tokens, k))
  }

  /** The total length of the first `n` gaps. */
  function GapLength(gaps: seq<string>, n: nat): nat
    requires n <= |gaps|
  {
    if n == 0 then 0 else GapLength(gaps, n - 1) + |gaps[n - 1]|
  }

  /** The total length of the first `n` tokens' texts. */
  function TextLength(tokens: seq<Token>, n: nat): nat
    requires n <= |tokens|
  {
    if n == 0 then 0 else TextLength(tokens, n - 1) + |tokens[n - 1].text|
  }

  /** The number of bolded tokens among the first `n`. */
  function MarkCount(marks: seq<bool>, n: nat): nat
    requires n <= |marks|
  {
    if n == 0 then 0 else MarkCount(marks, n - 1) + if marks[n - 1] then 1 else 0
  }

  /** The output for the first `n` tokens: each token's gap followed by its piece. */
  function Rendered(gaps: seq<string>, tokens: seq<Token>, marks: seq<bool>, n: nat): string
    requires n <= |tokens| == |marks| == |gaps|
  {
    if n == 0 then ""
    else Rendered(gaps, tokens, marks, n - 1) + gaps[n - 1] + Piece(tokens[n - 1], marks[n - 1])
  }

  /**
   Nothing but the gaps, the token texts and the markers is emitted: the
   output's length is that of the gaps and the token texts, and four more
   characters for each bolded token.
   */
  lemma {:induction false} RenderedLength(gaps: seq<string>, tokens: seq<Token>, marks: seq<bool>, n: nat)
    requires n <= |tokens| == |marks| == |gaps|
    ensures |Rendered(gaps, tokens, marks, n)| == GapLength(gaps, n) + TextLength(tokens, n) + 4 * MarkCount(marks, n)
  {
    if n > 0 {
      RenderedLength(gaps, tokens, marks, n - 1);
    }
  }

  /** In a well-formed tokenization each token ends no earlier than the first one starts. */
  lemma {:induction false} SpanOrdered(text: string, tokens: seq<Token>, n: nat)
    requires WellFormed(text, tokens) && 1 <= n <= |tokens|
    ensures tokens[0].idx <= tokens[n - 1].idx <= End(tokens[n - 1]) <= |text|
  {
    if n > 1 {
      SpanOrdered(text, tokens, n - 1);
    }
  }

  /**
   Lossless reconstruction: without any bold markers the output for the
   first `n` tokens of a well-formed tokenization is exactly the text from
   the start of the first token to the end of the `n`-th: every gap is copied
   verbatim and nothing before the first token is emitted.
   */
  lemma {:induction false} PlainIsSpan(text: string, tokens: seq<Token>, n: nat)
    requires WellFormed(text, tokens) && 1 <= n <= |tokens|
    ensures tokens[0].idx <= End(tokens[n - 1]) <= |text|
    ensures Rendered(Gaps(text, tokens), tokens, NoMarks(|tokens|), n) == text[tokens[0].idx..End(tokens[n - 1])]
  {
    SpanOrdered(text, tokens, n);
    var gaps, plain := Gaps(text, tokens), NoMarks(|tokens|);
    var t := tokens[n - 1];
    if n == 1 {
      assert Rendered(gaps, tokens, plain, 1) == Rendered(gaps, tokens, plain, 0) + gaps[0] + t.text;
    } else {
      PlainIsSpan(text, tokens, n - 1);
      var a, b, c, d := tokens[0].idx, End(tokens[n - 2]), t.idx, End(t);
      assert b <= c;
      calc {
        Rendered(gaps, tokens, plain, n);
        Rendered(gaps, tokens, plain, n - 1) + Gap(text, tokens, n - 1) + t.text;
        text[a..b] + text[b..c] + text[c..d];
        { SliceJoin(text, a, b, c); }
        text[a..c] + text[c..d];
        { SliceJoin(text, a, c, d); }
        text[a..d];
      }
    }
  }

  /** Adjacent slices join. */
  lemma SliceJoin(s: string, a: nat, b: nat, c: nat)
    requires a <= b <= c <= |s|
    ensures s[a..b] + s[b..c] == s[a..c]
  {
  }

  /** The output for the first `k` tokens is a prefix of the output for the first `n`. */
  lemma {:induction false} RenderedPrefix(gaps: seq<string>, tokens: seq<Token>, marks: seq<bool>, k: nat, n: nat)
    requires k <= n <= |tokens| == |marks| == |gaps|
    ensures |Rendered(gaps, tokens, marks, k)| <= |Rendered(gaps, tokens, marks, n)|
    ensures Rendered(gaps, tokens, marks, n)[..|Rendered(gaps, tokens, marks, k)|] == Rendered(gaps, tokens, marks, k)
  {
    if k < n {
      RenderedPrefix(gaps, tokens, marks, k, n - 1);
      var r, s := Rendered(gaps, tokens, marks, n - 1), Rendered(gaps, tokens, marks, n);
      assert s == r + (gaps[n - 1] + Piece(tokens[n - 1], marks[n - 1]));
      assert s[..|r|] == r;
    }
  }

  /** Where token `k`'s piece starts in the output: after the earlier tokens' output and its own gap. */
  function PieceStart(gaps: seq<string>, tokens: seq<Token>, marks: seq<bool>, k: nat): nat
    requires k < |tokens| == |marks| == |gaps|
  {
    |Rendered(gaps, tokens, marks, k)| + |gaps[k]|
  }

  /**
   Where each token lands in the output: the output for the first `n` tokens
   starts with the output for the tokens before token `k`, then token `k`'s
   gap, then its piece, which is `**` + its text + `**` exactly when it is
   bolded and its bare text otherwise.
   */
  lemma PieceAt(gaps: seq<string>, tokens: seq<Token>, marks: seq<bool>, n: nat, k: nat)
    requires k < n <= |tokens| == |marks| == |gaps|
    ensures |Rendered(gaps, tokens, marks, k + 1)| <= |Rendered(gaps, tokens, marks, n)|
    ensures Rendered(gaps, tokens, marks, n)[..|Rendered(gaps, tokens, marks, k + 1)|]
            == Rendered(gaps, tokens, marks, k) + gaps[k] + Piece(tokens[k], marks[k])
  {
    RenderedPrefix(gaps, tokens, marks, k + 1, n);
  }

  /**
   In the output for the first `n` tokens, token `k`'s piece sits exactly at
   `PieceStart`, and its gap just before it.
   */
  lemma PieceAtOffset(gaps: seq<string>, tokens: seq<Token>, marks: seq<bool>, n: nat, k: nat)
    requires k < n <= |tokens| == |marks| == |gaps|
    ensures PieceStart(gaps, tokens, marks, k) + |Piece(tokens[k], marks[k])| <= |Rendered(gaps, tokens, marks, n)|
    ensures Rendered(gaps, tokens, marks, n)[|Rendered(gaps, tokens, marks, k)|..PieceStart(gaps, tokens, marks, k)] == gaps[k]
    ensures Rendered(gaps, tokens, marks, n)[PieceStart(gaps, tokens, marks, k)..PieceStart(gaps, tokens, marks, k) + |Piece(tokens[k], marks[k])|]
            == Piece(tokens[k], marks[k])
  {
    PieceAt(gaps, tokens, marks, n, k);
    assert |Rendered(gaps, tokens, marks, k + 1)| == PieceStart(gaps, tokens, marks, k) + |Piece(tokens[k], marks[k])|;
    ThreeParts(Rendered(gaps, tokens, marks, n), Rendered(gaps, tokens, marks, k), gaps[k], Piece(tokens[k], marks[k]));
  }

  /** A string that starts with `r + g + p` holds `g` and `p` right after `r`. */
  lemma ThreeParts(out: string, r: string, g: string, p: string)
    requires |r + g + p| <= |out| && out[..|r + g + p|] == r + g + p
    ensures out[|r|..|r| + |g|] == g && out[|r| + |g|..|r| + |g| + |p|] == p
  {
    var s := r + g + p;
    assert out[|r|..|r| + |g|] == s[|r|..|r| + |g|];
    assert out[|r| + |g|..|r| + |g| + |p|] == s[|r| + |g|..];
  }

  /** A band starting at or above `EndRank` is empty: no token is bolded. */
  lemma EmptyBandMarksNothing(tokens: seq<Token>, positions: map<string, nat>, lower: string -> string, start: int)
    requires start >= EndRank
    ensures Marks(tokens, positions, lower, start) == NoMarks(|tokens|)
  {
  }

  /**
   With a band starting at or above `EndRank` the highlighter adds no marker:
   its output is exactly the span of the text the tokens cover.
   */
  lemma EmptyBandIsSpan(text: string, tokens: seq<Token>, positions: map<string, nat>, lower: string -> string, start: int)
    requires WellFormed(text, tokens) && |tokens| > 0 && start >= EndRank
    ensures tokens[0].idx <= End(tokens[|tokens| - 1]) <= |text|
    ensures Rendered(Gaps(text, tokens), tokens, Marks(tokens, positions, lower, start), |tokens|)
            == text[tokens[0].idx..End(tokens[|tokens| - 1])]
  {
    EmptyBandMarksNothing(tokens, positions, lower, start);
    PlainIsSpan(text, tokens, |tokens|);
  }

  /**
   The rank-0 quirk: a content token whose lemma has rank 0 and whose surface
   form has no rank is never bolded, not even for a band starting at 0.
   */
  lemma RankZeroLemmaFallsThrough(positions: map<string, nat>, lower: string -> string, start: int, t: Token)
    requires IsContent(t)
    requires lower(t.lemmaForm) in positions && positions[lower(t.lemmaForm)] == 0
    requires lower(t.text) !in positions
    ensures RankLookup(positions, lower(t.lemmaForm), lower(t.text)) == None
    ensures !ShouldBold(positions, lower, start, t)
  {
  }
}
