/**
 `MSC.equalizeTexts`: the text with fewer `split(" ")` pieces gets a block of
 `chr(0)` sentinels, joined by single spaces, appended with no leading space.
 The block therefore fuses with the text's last word.
 */
module Equalizer {
  import opened PyBuiltins

  /** `chr(0)`. */
  const SENTINEL: char := '\0'

  /** `len(text.split(" "))`: one more than the number of spaces. */
  function WordCount(t: string): (r: nat)
    ensures r == Count(t, ' ') + 1
  {
    |Split(t)|
  }

  /** `" ".join(chr(0) for _ in range(n))`: `n` sentinels separated by single spaces. */
  function SentinelBlock(n: nat): (r: string)
    ensures n == 0 ==> r == ""
    ensures n > 0 ==> |r| == 2 * n - 1
    ensures forall i :: 0 <= i < |r| ==> r[i] == (if i % 2 == 0 then SENTINEL else ' ')
  {
    SentinelBlockShape(n);
    Join(Sentinels(n))
  }

  /** The sentinel pieces the block is joined from: `n` copies of `chr(0)`. */
  function Sentinels(n: nat): (r: seq<string>)
    ensures |r| == n
  {
    seq(n, _ => [SENTINEL])
  }

  lemma {:induction false} SentinelBlockShape(n: nat)
    ensures n == 0 ==> Join(Sentinels(n)) == ""
    ensures n > 0 ==> |Join(Sentinels(n))| == 2 * n - 1
    ensures forall i :: 0 <= i < |Join(Sentinels(n))| ==>
              Join(Sentinels(n))[i] == (if i % 2 == 0 then SENTINEL else ' ')
  {
    if n > 1 {
      SentinelBlockShape(n - 1);
      assert Sentinels(n)[1..] == Sentinels(n - 1);
      var rest := Join(Sentinels(n - 1));
      assert Join(Sentinels(n)) == [SENTINEL] + " " + rest;
      forall i | 2 <= i < |Join(Sentinels(n))|
        ensures Join(Sentinels(n))[i] == (if i % 2 == 0 then SENTINEL else ' ')
      {
        assert Join(Sentinels(n))[i] == rest[i - 2];
      }
    }
  }

  /** Splitting the block gives back its `n` sentinel pieces. */
  lemma SplitSentinelBlock(n: nat)
    requires n > 0
    ensures Split(SentinelBlock(n)) == Sentinels(n)
  {
    SplitJoin(Sentinels(n));
  }

  /**
   `MSC.equalizeTexts`. Texts with the same number of pieces come back
   unchanged; otherwise the text with more pieces is unchanged and the other
   gets the sentinel block for the difference as a suffix.
   */
  function Equalize(t1: string, t2: string): (r: (string, string))
    ensures WordCount(t1) == WordCount(t2) ==> r == (t1, t2)
    ensures WordCount(t1) > WordCount(t2) ==>
              r.0 == t1 && r.1 == t2 + SentinelBlock(WordCount(t1) - WordCount(t2))
    ensures WordCount(t1) < WordCount(t2) ==>
              r.1 == t2 && r.0 == t1 + SentinelBlock(WordCount(t2) - WordCount(t1))
  {
    var n1 := WordCount(t1);
    var n2 := WordCount(t2);
    if n1 > n2 then
      (t1, t2 + SentinelBlock(n1 - n2))
    else
      assert t1 + SentinelBlock(0) == t1;
      (t1 + SentinelBlock(n2 - n1), t2)
  }

  /** Swapping the arguments swaps the results. */
  lemma EqualizeSwap(t1: string, t2: string)
    ensures Equalize(t2, t1) == (Equalize(t1, t2).1, Equalize(t1, t2).0)
  {
  }

  /**
   The padded text's pieces: all but the last piece of the original, then the
   last piece fused with one sentinel, then `n - 1` lone sentinels.
   */
  lemma SplitPadded(t: string, n: nat)
    requires n > 0
    ensures Split(t + SentinelBlock(n)) ==
            Split(t)[..|Split(t)| - 1] + [Last(Split(t)) + [SENTINEL]] + Sentinels(n - 1)
  {
    SplitSentinelBlock(n);
    SplitConcat(t, SentinelBlock(n));
    assert Sentinels(n)[1..] == Sentinels(n - 1);
  }

  /** Padding `n` sentinels adds `n - 1` pieces, not `n`. */
  lemma PaddedWordCount(t: string, n: nat)
    requires n > 0
    ensures WordCount(t + SentinelBlock(n)) == WordCount(t) + n - 1
  {
    SplitPadded(t, n);
  }

  /**
   After equalizing, texts that had the same number of pieces still do; when
   the counts differed, the longer text keeps its count `m` and the padded
   text has `m - 1` pieces.
   */
  lemma EqualizeWordCounts(t1: string, t2: string)
    ensures var e := Equalize(t1, t2);
            var n1 := WordCount(t1);
            var n2 := WordCount(t2);
            && (n1 == n2 ==> WordCount(e.0) == n1 && WordCount(e.1) == n2)
            && (n1 > n2 ==> WordCount(e.0) == n1 && WordCount(e.1) == n1 - 1)
            && (n1 < n2 ==> WordCount(e.0) == n2 - 1 && WordCount(e.1) == n2)
  {
    var n1 := WordCount(t1);
    var n2 := WordCount(t2);
    if n1 > n2 {
      PaddedWordCount(t2, n1 - n2);
    } else if n1 < n2 {
      PaddedWordCount(t1, n2 - n1);
    }
  }
}
