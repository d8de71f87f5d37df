/**
 `MSC.similarity` and its per-word step: `MSC._ord`, the zero padding of the
 shorter code vector, the signed difference `int2 - int1`, `MSC.S` of that
 difference, and the mean over the word pairs that `zip` forms.
 */
module TextSimilarity {
  import opened PyBuiltins
  import opened Kernel
  import opened Cleaner
  import opened Equalizer

  /* ---------------------------------------------------------------------
     per-word code vectors
     --------------------------------------------------------------------- */

  /** `MSC._ord`: the code of every character, in order. */
  function Ord(w: string): (r: seq<int>)
    ensures |r| == |w|
  {
    seq(|w|, i requires 0 <= i < |w| => w[i] as int)
  }

  /** Distinct words have distinct code lists. */
  lemma OrdInjective(a: string, b: string)
    requires Ord(a) == Ord(b)
    ensures a == b
  {
    assert forall i :: 0 <= i < |a| ==> a[i] as int == Ord(a)[i] == Ord(b)[i] == b[i] as int;
  }

  function Zeros(n: nat): (r: seq<int>)
    ensures |r| == n
  {
    seq(n, _ => 0)
  }

  /**
   The padding step of `MSC.similarity`: the shorter vector is extended with
   zeros. Both results have the longer length, start with their own vector,
   and hold only zeros after it.
   */
  function PadCodes(v1: seq<int>, v2: seq<int>): (r: (seq<int>, seq<int>))
    ensures |r.0| == |r.1| == Max(|v1|, |v2|)
    ensures r.0[..|v1|] == v1 && r.1[..|v2|] == v2
    ensures forall i :: |v1| <= i < |r.0| ==> r.0[i] == 0
    ensures forall i :: |v2| <= i < |r.1| ==> r.1[i] == 0
  {
    var n1 := |v1|;
    var n2 := |v2|;
    if n1 > n2 then
      assert (v2 + Zeros(n1 - n2))[..n2] == v2;
      (v1, v2 + Zeros(n1 - n2))
    else
      assert (v1 + Zeros(n2 - n1))[..n1] == v1;
      (v1 + Zeros(n2 - n1), v2)
  }

  /** Swapping the vectors swaps the padded results. */
  lemma PadCodesSwap(v1: seq<int>, v2: seq<int>)
    ensures PadCodes(v2, v1) == (PadCodes(v1, v2).1, PadCodes(v1, v2).0)
  {
    if |v1| == |v2| {
      assert v1 + Zeros(0) == v1;
      assert v2 + Zeros(0) == v2;
    }
  }

  /** `int2 - int1` on equal-length numpy arrays. */
  function Difference(a: seq<int>, b: seq<int>): (r: seq<int>)
    requires |a| == |b|
    ensures |r| == |a|
  {
    seq(|a|, i requires 0 <= i < |a| => b[i] - a[i])
  }

  /** The code at position `i` once `w` is zero-padded: 0 past the end. */
  function CodeAt(w: string, i: nat): int
  {
    if i < |w| then w[i] as int else 0
  }

  /**
   The difference vector `z` of a word pair: one entry per position of the
   longer word, each the second word's padded code minus the first's.
   */
  function WordDifference(w1: string, w2: string): (z: seq<int>)
    ensures |z| == Max(|w1|, |w2|)
    ensures forall i :: 0 <= i < |z| ==> z[i] == CodeAt(w2, i) - CodeAt(w1, i)
  {
    var p := PadCodes(Ord(w1), Ord(w2));
    assert forall i :: 0 <= i < |w1| ==> p.0[i] == p.0[..|w1|][i];
    assert forall i :: 0 <= i < |w2| ==> p.1[i] == p.1[..|w2|][i];
    Difference(p.0, p.1)
  }

  /** Swapping the words negates the difference vector. */
  lemma WordDifferenceSwap(w1: string, w2: string)
    ensures WordDifference(w2, w1) == Negate(WordDifference(w1, w2))
  {
  }

  /** Two words whose zero-padded codes agree everywhere (and which are not both empty). */
  predicate CodesMatch(w1: string, w2: string)
  {
    && |w1| + |w2| > 0
    && forall i :: 0 <= i < Max(|w1|, |w2|) ==> CodeAt(w1, i) == CodeAt(w2, i)
  }

  /**
   The score of one word pair: `MSC.S` of its difference vector. NaN exactly
   when both words are empty, otherwise in (0, 1], and 1 exactly when the
   zero-padded codes agree.
   */
  function WordScore(k: int -> real, w1: string, w2: string): (r: Score)
    requires IsKernel(k)
    ensures r.NaN? <==> w1 == "" && w2 == ""
    ensures r.Num? ==> 0.0 < r.value <= 1.0
    ensures r == Num(1.0) <==> CodesMatch(w1, w2)
  {
    S(k, WordDifference(w1, w2))
  }

  /** The word score does not depend on the order of the words. */
  lemma WordScoreSymmetric(k: int -> real, w1: string, w2: string)
    requires IsKernel(k)
    ensures WordScore(k, w1, w2) == WordScore(k, w2, w1)
  {
    WordDifferenceSwap(w1, w2);
    SNegate(k, WordDifference(w1, w2));
  }

  /** For words without `chr(0)`, codes match exactly when the words are equal and non-empty. */
  lemma CodesMatchWithoutSentinel(w1: string, w2: string)
    requires SENTINEL !in w1 && SENTINEL !in w2
    ensures CodesMatch(w1, w2) <==> w1 == w2 && w1 != ""
  {
    if CodesMatch(w1, w2) {
      MatchSameLength(w1, w2);
      MatchSameLength(w2, w1);
      forall i | 0 <= i < |w1| ensures w1[i] == w2[i] {
        assert CodeAt(w1, i) == CodeAt(w2, i);
      }
    }
  }

  lemma MatchSameLength(w1: string, w2: string)
    requires SENTINEL !in w2
    requires CodesMatch(w1, w2)
    ensures |w2| <= |w1|
  {
    if |w1| < |w2| {
      CodeAtNonZero(w2, |w1|);
      assert false;
    }
  }

  lemma CodeAtNonZero(w: string, i: nat)
    requires SENTINEL !in w
    requires i < |w|
    ensures CodeAt(w, i) != 0
  {
    assert w[i] in w;
  }

  /** A word and the same word with the fused sentinel score as equal. */
  lemma CodesMatchFusedSentinel(w: string)
    ensures CodesMatch(w, w + [SENTINEL])
  {
    assert forall i :: 0 <= i < |w| ==> (w + [SENTINEL])[i] == w[i];
  }

  /**
   For one-letter words, a larger code gap gives a strictly smaller score:
   the kernel decays with the distance between codes.
   */
  lemma WordScoreDecays(k: int -> real, a: char, b: char, c: char)
    requires IsKernel(k)
    requires var d1 := b as int - a as int; var d2 := c as int - a as int;
             (if d1 < 0 then -d1 else d1) < (if d2 < 0 then -d2 else d2)
    ensures WordScore(k, [a], [c]).value < WordScore(k, [a], [b]).value
  {
    var d1 := b as int - a as int;
    var d2 := c as int - a as int;
    SingleLetterScore(k, a, b);
    SingleLetterScore(k, a, c);
    var e1 := if d1 < 0 then -d1 else d1;
    var e2 := if d2 < 0 then -d2 else d2;
    assert k(e1) == k(d1) && k(e2) == k(d2) by {
      assert k(-d1) == k(d1);
      assert k(-d2) == k(d2);
    }
    assert k(e2) < k(e1);
  }

  lemma SingleLetterScore(k: int -> real, a: char, b: char)
    requires IsKernel(k)
    ensures WordScore(k, [a], [b]) == Num(k(b as int - a as int))
  {
    var d := b as int - a as int;
    assert WordDifference([a], [b]) == [d];
    assert KernelSum(k, [d]) == k(d) by {
      assert [d][1..] == [];
    }
  }

  /* ---------------------------------------------------------------------
     text similarity
     --------------------------------------------------------------------- */

  /** The word pairs `MSC.similarity` scores: `zip` of the pieces of the cleaned, equalized texts. */
  function WordPairs(t1: string, t2: string): (r: seq<(string, string)>)
    ensures |r| >= 1
  {
    var e := Equalize(Clean(t1), Clean(t2));
    Zip(Split(e.0), Split(e.1))
  }

  /** Every scored word is space-free: the loop only ever sees single words. */
  lemma WordPairsSpaceFree(t1: string, t2: string)
    ensures forall i :: 0 <= i < |WordPairs(t1, t2)| ==>
              ' ' !in WordPairs(t1, t2)[i].0 && ' ' !in WordPairs(t1, t2)[i].1
  {
    var e := Equalize(Clean(t1), Clean(t2));
    SplitPiecesHaveNoSpace(e.0);
    SplitPiecesHaveNoSpace(e.1);
  }

  /** The per-word scores collected in `sim`: one per pair, all numbers unless a pair of empty words is present, and every number in (0, 1]. */
  function WordScores(k: int -> real, ps: seq<(string, string)>): (r: seq<Score>)
    requires IsKernel(k)
    ensures |r| == |ps|
    ensures ("", "") !in ps ==> AllNum(r)
    ensures NumsInUnit(r)
  {
    seq(|ps|, i requires 0 <= i < |ps| => WordScore(k, ps[i].0, ps[i].1))
  }

  /**
   The number of pairs scored. With equal piece counts every piece is paired;
   otherwise the longer text's count minus one, because the sentinel block
   fuses with the shorter text's last word. The longer text's last piece is
   never scored, and there is always at least one pair.
   */
  lemma PairCount(t1: string, t2: string)
    ensures var n1 := WordCount(Clean(t1));
            var n2 := WordCount(Clean(t2));
            |WordPairs(t1, t2)| == (if n1 == n2 then n1 else Max(n1, n2) - 1)
    ensures |WordPairs(t1, t2)| >= 1
    ensures var c1 := Clean(t1);
            WordCount(c1) > WordCount(Clean(t2)) ==>
              forall i :: 0 <= i < |WordPairs(t1, t2)| ==>
                i < WordCount(c1) - 1 && WordPairs(t1, t2)[i].0 == Split(c1)[i]
    ensures var c2 := Clean(t2);
            WordCount(c2) > WordCount(Clean(t1)) ==>
              forall i :: 0 <= i < |WordPairs(t1, t2)| ==>
                i < WordCount(c2) - 1 && WordPairs(t1, t2)[i].1 == Split(c2)[i]
  {
    EqualizeWordCounts(Clean(t1), Clean(t2));
  }

  /** `MSC.similarity`: the mean of the word scores over the zipped pairs; a number always lies in (0, 1]. */
  function Similarity(k: int -> real, t1: string, t2: string): (r: Score)
    requires IsKernel(k)
    ensures r.Num? ==> 0.0 < r.value <= 1.0
  {
    MeanOfWordScores(k, WordPairs(t1, t2));
    Mean(WordScores(k, WordPairs(t1, t2)))
  }

  /**
   When `MSC.similarity` is NaN and when it is exactly 1: NaN exactly when
   some scored pair consists of two empty words, and 1 exactly when every
   scored pair has matching zero-padded codes.
   */
  lemma SimilarityCases(k: int -> real, t1: string, t2: string)
    requires IsKernel(k)
    ensures Similarity(k, t1, t2).NaN? <==> ("", "") in WordPairs(t1, t2)
    ensures Similarity(k, t1, t2) == Num(1.0) <==>
              forall i :: 0 <= i < |WordPairs(t1, t2)| ==>
                CodesMatch(WordPairs(t1, t2)[i].0, WordPairs(t1, t2)[i].1)
  {
    PairCount(t1, t2);
    MeanOfWordScores(k, WordPairs(t1, t2));
  }

  lemma MeanOfWordScores(k: int -> real, ps: seq<(string, string)>)
    requires IsKernel(k)
    ensures var r := Mean(WordScores(k, ps));
            && (r.Num? ==> 0.0 < r.value <= 1.0)
            && (|ps| >= 1 ==> (r.NaN? <==> ("", "") in ps))
            && (|ps| >= 1 ==> (r == Num(1.0) <==> forall i :: 0 <= i < |ps| ==> CodesMatch(ps[i].0, ps[i].1)))
  {
    var xs := WordScores(k, ps);
    assert AllNum(xs) <==> ("", "") !in ps by {
      if ("", "") in ps {
        var i :| 0 <= i < |ps| && ps[i] == ("", "");
        assert xs[i].NaN?;
      }
    }
    assert AllNum(xs) ==> AllInUnit(xs);
    assert AllOne(xs) <==> forall i :: 0 <= i < |ps| ==> CodesMatch(ps[i].0, ps[i].1) by {
      assert forall i :: 0 <= i < |ps| ==> (xs[i] == Num(1.0) <==> CodesMatch(ps[i].0, ps[i].1));
    }
  }

  /** Swapping the texts swaps every word pair. */
  lemma WordPairsSwap(t1: string, t2: string)
    ensures |WordPairs(t2, t1)| == |WordPairs(t1, t2)|
    ensures forall i :: 0 <= i < |WordPairs(t1, t2)| ==>
              WordPairs(t2, t1)[i] == (WordPairs(t1, t2)[i].1, WordPairs(t1, t2)[i].0)
  {
    EqualizeSwap(Clean(t1), Clean(t2));
  }

  /** Symmetry: the similarity does not depend on the order of the texts. */
  lemma SimilaritySymmetric(k: int -> real, t1: string, t2: string)
    requires IsKernel(k)
    ensures Similarity(k, t1, t2) == Similarity(k, t2, t1)
  {
    var ps := WordPairs(t1, t2);
    var qs := WordPairs(t2, t1);
    WordPairsSwap(t1, t2);
    forall i | 0 <= i < |ps|
      ensures WordScores(k, qs)[i] == WordScores(k, ps)[i]
    {
      WordScoreSymmetric(k, ps[i].0, ps[i].1);
    }
    assert WordScores(k, qs) == WordScores(k, ps);
  }

  /**
   Reflexivity: a text compared with itself scores exactly 1 when its cleaned
   form has no empty piece, and NaN otherwise.
   */
  lemma SimilarityReflexive(k: int -> real, t: string)
    requires IsKernel(k)
    ensures Similarity(k, t, t) == Num(1.0) <==> "" !in Split(Clean(t))
    ensures "" in Split(Clean(t)) ==> Similarity(k, t, t) == NaN
  {
    SimilarityCases(k, t, t);
    var ws := Split(Clean(t));
    var ps := WordPairs(t, t);
    assert |ps| == |ws|;
    assert forall i :: 0 <= i < |ps| ==> ps[i] == (ws[i], ws[i]);
    if "" in ws {
      var i :| 0 <= i < |ws| && ws[i] == "";
      assert ps[i] == ("", "");
    } else {
      forall i | 0 <= i < |ps| ensures CodesMatch(ps[i].0, ps[i].1) {
        assert ws[i] in ws;
      }
    }
  }

  /* ---------------------------------------------------------------------
     the fused-sentinel quirk
     --------------------------------------------------------------------- */

  /** The first piece of `s` is empty exactly when `s` is empty or starts with a space. */
  lemma FirstPieceEmpty(s: string)
    ensures Split(s)[0] == "" <==> |s| == 0 || s[0] == ' '
  {
  }

  /** Beyond the first, no piece is empty when there is no double space and no trailing space. */
  lemma {:induction false} LaterPiecesNonEmpty(s: string)
    requires NoDoubleSpace(s)
    requires |s| > 0 ==> s[|s| - 1] != ' '
    ensures forall i :: 1 <= i < |Split(s)| ==> Split(s)[i] != ""
    decreases |s|
  {
    if |s| > 0 {
      var s' := s[1..];
      assert NoDoubleSpace(s') by {
        assert forall i :: 0 <= i < |s'| ==> s'[i] == s[i + 1];
      }
      LaterPiecesNonEmpty(s');
      if s[0] == ' ' {
        assert |s'| > 0 && s'[0] != ' ';
        FirstPieceEmpty(s');
      }
    }
  }

  /** A non-empty normalized text has no empty piece. */
  lemma NormalizedPiecesNonEmpty(t: string)
    requires IsNormalized(t) && |t| > 0
    ensures "" !in Split(t)
  {
    FirstPieceEmpty(t);
    LaterPiecesNonEmpty(t);
  }

  /**
   Appending one more word to a normalized text does not change the score:
   the extra word is the longer text's last piece, which is never scored,
   and the sentinel fused onto the shorter text's last word has code 0,
   like the zero padding of the longer word it meets.
   */
  lemma TrailingWordIgnored(k: int -> real, a: string, w: string)
    requires IsKernel(k)
    requires IsNormalized(a) && |a| > 0
    requires |w| > 0 && forall i :: 0 <= i < |w| ==> IsAllowed(w[i]) && w[i] != ' '
    ensures Similarity(k, a + " " + w, a) == Num(1.0)
  {
    PairsOfAppendedWord(a, w);
    NormalizedPiecesNonEmpty(a);
    AppendedWordScoresOne(k, a + " " + w, a, Split(a), w);
  }

  /** Texts whose pairs are those of a word list with one more word against its padded form score 1. */
  lemma AppendedWordScoresOne(k: int -> real, t1: string, t2: string, ws: seq<string>, w: string)
    requires IsKernel(k)
    requires |ws| > 0 && "" !in ws
    requires WordPairs(t1, t2) == Zip(ws + [w], ws[..|ws| - 1] + [Last(ws) + [SENTINEL]])
    ensures Similarity(k, t1, t2) == Num(1.0)
  {
    AppendedPairsMatch(ws, w);
    MatchingPairsScoreOne(k, t1, t2, Zip(ws + [w], ws[..|ws| - 1] + [Last(ws) + [SENTINEL]]));
  }

  /** Pairs whose codes all match give a score of exactly 1. */
  lemma MatchingPairsScoreOne(k: int -> real, t1: string, t2: string, ps: seq<(string, string)>)
    requires IsKernel(k)
    requires WordPairs(t1, t2) == ps
    requires forall i :: 0 <= i < |ps| ==> CodesMatch(ps[i].0, ps[i].1)
    ensures Similarity(k, t1, t2) == Num(1.0)
  {
    SimilarityCases(k, t1, t2);
  }

  /** Pairs none of which is two empty words give a number. */
  lemma NonEmptyPairsScoreNum(k: int -> real, t1: string, t2: string, ps: seq<(string, string)>)
    requires IsKernel(k)
    requires WordPairs(t1, t2) == ps
    requires ("", "") !in ps
    ensures Similarity(k, t1, t2).Num?
  {
    SimilarityCases(k, t1, t2);
  }

  /** Every pair of a text with one more word against its padded form has matching codes. */
  lemma AppendedPairsMatch(ws: seq<string>, w: string)
    requires |ws| > 0 && "" !in ws
    ensures var ps := Zip(ws + [w], ws[..|ws| - 1] + [Last(ws) + [SENTINEL]]);
            forall i :: 0 <= i < |ps| ==> CodesMatch(ps[i].0, ps[i].1)
  {
    var m := |ws|;
    var ps := Zip(ws + [w], ws[..m - 1] + [Last(ws) + [SENTINEL]]);
    forall i | 0 <= i < |ps| ensures CodesMatch(ps[i].0, ps[i].1) {
      if i < m - 1 {
        assert ps[i] == (ws[i], ws[i]) && ws[i] in ws;
      } else {
        assert ps[i] == (ws[m - 1], ws[m - 1] + [SENTINEL]);
        CodesMatchFusedSentinel(ws[m - 1]);
      }
    }
  }

  /** The pairs scored for `a + " " + w` against `a`. */
  lemma PairsOfAppendedWord(a: string, w: string)
    requires IsNormalized(a) && |a| > 0
    requires |w| > 0 && forall i :: 0 <= i < |w| ==> IsAllowed(w[i]) && w[i] != ' '
    ensures var ws := Split(a);
            WordPairs(a + " " + w, a) ==
            Zip(ws + [w], ws[..|ws| - 1] + [Last(ws) + [SENTINEL]])
  {
    var b := a + " " + w;
    NormalizedAppend(a, w);
    CleanNormalized(a);
    CleanNormalized(b);
    EqualizeAppendedWord(a, w);
    SplitPaddedOnce(a);
  }

  lemma EqualizeAppendedWord(a: string, w: string)
    requires ' ' !in w
    ensures Split(a + " " + w) == Split(a) + [w]
    ensures Equalize(a + " " + w, a) == (a + " " + w, a + SentinelBlock(1))
  {
    SplitAppendWord(a, w);
  }

  lemma SplitPaddedOnce(a: string)
    ensures var ws := Split(a);
            Split(a + SentinelBlock(1)) == ws[..|ws| - 1] + [Last(ws) + [SENTINEL]]
  {
    SplitPadded(a, 1);
    assert Sentinels(0) == [];
  }

  lemma NormalizedAppend(a: string, w: string)
    requires IsNormalized(a) && |a| > 0
    requires |w| > 0 && forall i :: 0 <= i < |w| ==> IsAllowed(w[i]) && w[i] != ' '
    ensures IsNormalized(a + " " + w)
  {
    var b := a + " " + w;
    assert forall i :: 0 <= i < |b| ==>
             b[i] == (if i < |a| then a[i] else if i == |a| then ' ' else w[i - |a| - 1]);
  }

  /** A concrete instance: "one two three" scores 1 against "one two". */
  lemma PrefixTextScoresOne(k: int -> real)
    requires IsKernel(k)
    ensures Similarity(k, "one two three", "one two") == Num(1.0)
  {
    assert IsNormalized("one two");
    assert "one two" + " " + "three" == "one two three";
    TrailingWordIgnored(k, "one two", "three");
  }

  /** Two empty texts leave one pair of empty words, whose score is NaN. */
  lemma EmptyTextsNaN(k: int -> real)
    requires IsKernel(k)
    ensures Similarity(k, "", "") == NaN
  {
    CleanNormalized("");
    assert WordPairs("", "") == [("", "")];
    SimilarityCases(k, "", "");
  }

  /**
   Two normalized texts with different word counts: the longer text's pieces
   are paired with the shorter text's pieces, the last of which carries the
   first sentinel, and then with lone sentinels.
   */
  lemma PaddedPairs(a: string, b: string)
    requires IsNormalized(a) && IsNormalized(b)
    requires WordCount(a) > WordCount(b)
    ensures var wb := Split(b);
            WordPairs(a, b) ==
            Zip(Split(a), wb[..|wb| - 1] + [Last(wb) + [SENTINEL]] + Sentinels(WordCount(a) - WordCount(b) - 1))
  {
    CleanNormalized(a);
    CleanNormalized(b);
    SplitPadded(b, WordCount(a) - WordCount(b));
  }

  /**
   A word-count mismatch between normalized texts never yields NaN when the
   shorter text is non-empty: every piece it contributes is non-empty.
   */
  lemma MismatchScores(k: int -> real, a: string, b: string)
    requires IsKernel(k)
    requires IsNormalized(a) && IsNormalized(b) && |b| > 0
    requires WordCount(a) > WordCount(b)
    ensures Similarity(k, a, b).Num?
  {
    var wb := Split(b);
    var padded := wb[..|wb| - 1] + [Last(wb) + [SENTINEL]] + Sentinels(WordCount(a) - WordCount(b) - 1);
    var ps := Zip(Split(a), padded);
    assert WordPairs(a, b) == ps by {
      PaddedPairs(a, b);
    }
    assert ("", "") !in ps by {
      NormalizedPiecesNonEmpty(b);
      PaddedPiecesNonEmpty(wb, WordCount(a) - WordCount(b) - 1);
      ZipNoEmptyPair(Split(a), padded);
    }
    NonEmptyPairsScoreNum(k, a, b, ps);
  }

  /** Padding keeps pieces non-empty: the fused and the lone sentinels are never empty. */
  lemma PaddedPiecesNonEmpty(ws: seq<string>, n: nat)
    requires |ws| > 0 && "" !in ws
    ensures "" !in ws[..|ws| - 1] + [Last(ws) + [SENTINEL]] + Sentinels(n)
  {
    var padded := ws[..|ws| - 1] + [Last(ws) + [SENTINEL]] + Sentinels(n);
    forall i | 0 <= i < |padded| ensures padded[i] != "" {
      if i < |ws| - 1 {
        assert padded[i] == ws[i] && ws[i] in ws;
      }
    }
  }

  /** Zipping against pieces that are all non-empty never yields a pair of empty words. */
  lemma ZipNoEmptyPair(xs: seq<string>, ys: seq<string>)
    requires "" !in ys
    ensures ("", "") !in Zip(xs, ys)
  {
  }
}
