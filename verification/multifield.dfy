/**
 `MSCMultiple.similarity`: the mean of `MSC.similarity` over the field pairs
 that `zip` forms, so surplus fields of the longer list are ignored.
 */
module MultiField {
  import opened PyBuiltins
  import opened Kernel
  import opened Cleaner
  import opened TextSimilarity

  function FieldScores(k: int -> real, f1: seq<string>, f2: seq<string>): (r: seq<Score>)
    requires IsKernel(k)
    ensures |r| == Min(|f1|, |f2|)
  {
    var ps := Zip(f1, f2);
    seq(|ps|, i requires 0 <= i < |ps| => Similarity(k, ps[i].0, ps[i].1))
  }

  /** `MSCMultiple.similarity`: the mean of the field scores; a number always lies in (0, 1]. */
  function MultiSimilarity(k: int -> real, f1: seq<string>, f2: seq<string>): (r: Score)
    requires IsKernel(k)
    ensures r.Num? ==> 0.0 < r.value <= 1.0
  {
    FieldScoresAt(k, f1, f2);
    MeanCases(FieldScores(k, f1, f2));
    Mean(FieldScores(k, f1, f2))
  }

  /**
   When `MSCMultiple.similarity` is NaN and when it is exactly 1: NaN when no
   field pair is formed or some pair scores NaN, and 1 exactly when at least
   one pair is formed and every pair scores 1.
   */
  lemma MultiSimilarityCases(k: int -> real, f1: seq<string>, f2: seq<string>)
    requires IsKernel(k)
    ensures MultiSimilarity(k, f1, f2).NaN? <==>
              Min(|f1|, |f2|) == 0 ||
              exists i :: 0 <= i < Min(|f1|, |f2|) && Similarity(k, f1[i], f2[i]).NaN?
    ensures MultiSimilarity(k, f1, f2) == Num(1.0) <==>
              Min(|f1|, |f2|) > 0 &&
              forall i :: 0 <= i < Min(|f1|, |f2|) ==> Similarity(k, f1[i], f2[i]) == Num(1.0)
  {
    FieldMeanNaN(k, f1, f2);
    FieldMeanOne(k, f1, f2);
  }

  lemma FieldMeanNaN(k: int -> real, f1: seq<string>, f2: seq<string>)
    requires IsKernel(k)
    ensures Mean(FieldScores(k, f1, f2)).NaN? <==>
              Min(|f1|, |f2|) == 0 ||
              exists i :: 0 <= i < Min(|f1|, |f2|) && Similarity(k, f1[i], f2[i]).NaN?
  {
    if Mean(FieldScores(k, f1, f2)).NaN? {
      FieldMeanNaNFrom(k, f1, f2);
    }
    if exists i :: 0 <= i < Min(|f1|, |f2|) && Similarity(k, f1[i], f2[i]).NaN? {
      var i :| 0 <= i < Min(|f1|, |f2|) && Similarity(k, f1[i], f2[i]).NaN?;
      FieldNaNSpreads(k, f1, f2, i);
    }
  }

  lemma FieldMeanNaNFrom(k: int -> real, f1: seq<string>, f2: seq<string>)
    requires IsKernel(k)
    requires Mean(FieldScores(k, f1, f2)).NaN?
    ensures Min(|f1|, |f2|) == 0 ||
            exists i :: 0 <= i < Min(|f1|, |f2|) && Similarity(k, f1[i], f2[i]).NaN?
  {
    var xs := FieldScores(k, f1, f2);
    FieldScoresAt(k, f1, f2);
    MeanCases(xs);
    if |xs| > 0 {
      var i :| 0 <= i < |xs| && xs[i].NaN?;
      assert Similarity(k, f1[i], f2[i]).NaN?;
    }
  }

  lemma FieldNaNSpreads(k: int -> real, f1: seq<string>, f2: seq<string>, i: nat)
    requires IsKernel(k)
    requires i < Min(|f1|, |f2|) && Similarity(k, f1[i], f2[i]).NaN?
    ensures Mean(FieldScores(k, f1, f2)).NaN?
  {
    var xs := FieldScores(k, f1, f2);
    FieldScoresAt(k, f1, f2);
    MeanCases(xs);
    assert xs[i].NaN?;
  }

  lemma FieldMeanOne(k: int -> real, f1: seq<string>, f2: seq<string>)
    requires IsKernel(k)
    ensures Mean(FieldScores(k, f1, f2)) == Num(1.0) <==>
              Min(|f1|, |f2|) > 0 &&
              forall i :: 0 <= i < Min(|f1|, |f2|) ==> Similarity(k, f1[i], f2[i]) == Num(1.0)
  {
    if Mean(FieldScores(k, f1, f2)) == Num(1.0) {
      FieldMeanOneOnly(k, f1, f2);
    } else if Min(|f1|, |f2|) > 0 {
      FieldMeanNotOne(k, f1, f2);
    }
  }

  lemma FieldMeanOneOnly(k: int -> real, f1: seq<string>, f2: seq<string>)
    requires IsKernel(k)
    requires Mean(FieldScores(k, f1, f2)) == Num(1.0)
    ensures Min(|f1|, |f2|) > 0
    ensures forall i :: 0 <= i < Min(|f1|, |f2|) ==> Similarity(k, f1[i], f2[i]) == Num(1.0)
  {
    var xs := FieldScores(k, f1, f2);
    FieldScoresAt(k, f1, f2);
    MeanCases(xs);
    forall i | 0 <= i < |xs| ensures Similarity(k, f1[i], f2[i]) == Num(1.0) {
      assert xs[i] == Num(1.0);
    }
  }

  lemma FieldMeanNotOne(k: int -> real, f1: seq<string>, f2: seq<string>)
    requires IsKernel(k)
    requires Mean(FieldScores(k, f1, f2)) != Num(1.0)
    requires Min(|f1|, |f2|) > 0
    ensures exists i :: 0 <= i < Min(|f1|, |f2|) && Similarity(k, f1[i], f2[i]) != Num(1.0)
  {
    var xs := FieldScores(k, f1, f2);
    FieldScoresAt(k, f1, f2);
    MeanCases(xs);
    var i :| 0 <= i < |xs| && xs[i] != Num(1.0);
    assert Similarity(k, f1[i], f2[i]) != Num(1.0);
  }

  lemma FieldScoresAt(k: int -> real, f1: seq<string>, f2: seq<string>)
    requires IsKernel(k)
    ensures NumsInUnit(FieldScores(k, f1, f2))
    ensures forall i :: 0 <= i < Min(|f1|, |f2|) ==> FieldScores(k, f1, f2)[i] == Similarity(k, f1[i], f2[i])
  {
  }

  /** Symmetry: swapping the two field lists does not change the score. */
  lemma MultiSimilaritySymmetric(k: int -> real, f1: seq<string>, f2: seq<string>)
    requires IsKernel(k)
    ensures MultiSimilarity(k, f1, f2) == MultiSimilarity(k, f2, f1)
  {
    forall i | 0 <= i < Min(|f1|, |f2|)
      ensures FieldScores(k, f1, f2)[i] == FieldScores(k, f2, f1)[i]
    {
      SimilaritySymmetric(k, f1[i], f2[i]);
    }
    assert FieldScores(k, f1, f2) == FieldScores(k, f2, f1);
  }

  /**
   Reflexivity: a field list compared with itself scores 1 exactly when it is
   non-empty and no cleaned field has an empty piece.
   */
  lemma MultiSimilarityReflexive(k: int -> real, fs: seq<string>)
    requires IsKernel(k)
    ensures MultiSimilarity(k, fs, fs) == Num(1.0) <==>
              |fs| > 0 && forall i :: 0 <= i < |fs| ==> "" !in Split(Clean(fs[i]))
  {
    MultiSimilarityCases(k, fs, fs);
    forall i | 0 <= i < |fs|
      ensures Similarity(k, fs[i], fs[i]) == Num(1.0) <==> "" !in Split(Clean(fs[i]))
    {
      SimilarityReflexive(k, fs[i]);
    }
  }

  /** `zip` truncation: fields beyond the shorter list's length are never compared. */
  lemma MultiSimilarityTruncates(k: int -> real, f1: seq<string>, f2: seq<string>)
    requires IsKernel(k)
    requires |f1| >= |f2|
    ensures MultiSimilarity(k, f1, f2) == MultiSimilarity(k, f1[..|f2|], f2)
  {
    assert FieldScores(k, f1, f2) == FieldScores(k, f1[..|f2|], f2);
  }
}
