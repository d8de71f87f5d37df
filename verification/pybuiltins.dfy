/**
 Models of the Python built-ins and `str` methods that the similarity engine
 relies on: `str.split(" ")`, `" ".join`, `str.strip()`, `str.replace` for
 single characters, `re.sub(' +', ' ', …)` and `zip`.
 Strings are `seq<char>`; a Python character is a Dafny `char` (a Unicode
 scalar value) and `ord(c)` is `c as int`.
 */
module PyBuiltins {

  function Min(a: int, b: int): int { if a < b then a else b }

  function Max(a: int, b: int): int { if a < b then b else a }

  /** How often `c` occurs in `s`; it measures `split`'s result and what the cleaner keeps. */
  function Count(s: string, c: char): nat
  {
    if |s| == 0 then 0 else (if s[0] == c then 1 else 0) + Count(s[1..], c)
  }

  lemma {:induction false} CountConcat(a: string, b: string, c: char)
    ensures Count(a + b, c) == Count(a, c) + Count(b, c)
  {
    if |a| == 0 {
      assert a + b == b;
    } else {
      assert (a + b)[1..] == a[1..] + b;
      CountConcat(a[1..], b, c);
    }
  }

  /** `a` is `b` with some characters deleted (order preserved). */
  ghost predicate IsSubsequence(a: string, b: string)
    decreases |b|
  {
    |a| == 0 ||
    (|b| > 0 && ((a[0] == b[0] && IsSubsequence(a[1..], b[1..])) || IsSubsequence(a, b[1..])))
  }

  /* ---------------------------------------------------------------------
     split / join
     --------------------------------------------------------------------- */

  /**
   `s.split(" ")`: cut at every single space. Adjacent spaces and spaces at
   either end produce empty pieces, and the result is never empty.
   */
  function Split(s: string): (r: seq<string>)
    ensures |r| == Count(s, ' ') + 1
    decreases |s|
  {
    if |s| == 0 then [""]
    else
      var rest := Split(s[1..]);
      if s[0] == ' ' then [""] + rest
      else [[s[0]] + rest[0]] + rest[1..]
  }

  /** No piece of a split contains a space. */
  lemma {:induction false} SplitPiecesHaveNoSpace(s: string)
    ensures forall i :: 0 <= i < |Split(s)| ==> ' ' !in Split(s)[i]
    decreases |s|
  {
    if |s| > 0 {
      SplitPiecesHaveNoSpace(s[1..]);
      var rest := Split(s[1..]);
      if s[0] != ' ' {
        assert ' ' !in [s[0]] + rest[0] by {
          assert rest[0] in rest;
        }
      }
    }
  }

  function Last<T>(xs: seq<T>): T
    requires |xs| > 0
  {
    xs[|xs| - 1]
  }

  /** The total length of the pieces. */
  function TotalLength(ws: seq<string>): nat
  {
    if |ws| == 0 then 0 else |ws[0]| + TotalLength(ws[1..])
  }

  /**
   `" ".join(ws)`: the pieces with one space between each neighbouring pair,
   so the length is the pieces' total plus one per gap.
   */
  function Join(ws: seq<string>): (r: string)
    ensures |ws| > 0 ==> |r| == TotalLength(ws) + |ws| - 1
  {
    if |ws| == 0 then ""
    else if |ws| == 1 then ws[0]
    else ws[0] + " " + Join(ws[1..])
  }

  /** Splitting a concatenation: the last piece of `a` fuses with the first piece of `b`. */
  lemma {:induction false} SplitConcat(a: string, b: string)
    ensures Split(a + b) ==
            Split(a)[..|Split(a)| - 1] + [Last(Split(a)) + Split(b)[0]] + Split(b)[1..]
    decreases |a|
  {
    if |a| == 0 {
      assert a + b == b;
      var sb := Split(b);
      assert Split(a) == [""];
      assert "" + sb[0] == sb[0];
      assert [sb[0]] + sb[1..] == sb;
    } else {
      assert (a + b)[1..] == a[1..] + b;
      SplitConcat(a[1..], b);
      if a[0] == ' ' {
        SplitConcatSpace(a, b);
      } else {
        SplitConcatLetter(a, b);
      }
    }
  }

  lemma SplitConcatSpace(a: string, b: string)
    requires |a| > 0 && a[0] == ' '
    requires (a + b)[1..] == a[1..] + b
    requires Split(a[1..] + b) ==
             Split(a[1..])[..|Split(a[1..])| - 1] + [Last(Split(a[1..])) + Split(b)[0]] + Split(b)[1..]
    ensures Split(a + b) ==
            Split(a)[..|Split(a)| - 1] + [Last(Split(a)) + Split(b)[0]] + Split(b)[1..]
  {
    var sa' := Split(a[1..]);
    assert Split(a + b) == [""] + Split(a[1..] + b);
    assert Split(a) == [""] + sa';
    SpaceStep(sa', Split(b), Split(a[1..] + b));
  }

  lemma SpaceStep(sa: seq<string>, sb: seq<string>, rest: seq<string>)
    requires |sa| > 0 && |sb| > 0
    requires rest == sa[..|sa| - 1] + [Last(sa) + sb[0]] + sb[1..]
    ensures [""] + rest ==
            ([""] + sa)[..|sa|] + [Last([""] + sa) + sb[0]] + sb[1..]
  {
    assert ([""] + sa)[..|sa|] == [""] + sa[..|sa| - 1];
  }

  lemma SplitConcatLetter(a: string, b: string)
    requires |a| > 0 && a[0] != ' '
    requires (a + b)[1..] == a[1..] + b
    requires Split(a[1..] + b) ==
             Split(a[1..])[..|Split(a[1..])| - 1] + [Last(Split(a[1..])) + Split(b)[0]] + Split(b)[1..]
    ensures Split(a + b) ==
            Split(a)[..|Split(a)| - 1] + [Last(Split(a)) + Split(b)[0]] + Split(b)[1..]
  {
    var sb := Split(b);
    var sa' := Split(a[1..]);
    var rest := Split(a[1..] + b);
    assert Split(a + b) == [[a[0]] + rest[0]] + rest[1..];
    assert Split(a) == [[a[0]] + sa'[0]] + sa'[1..];
    if |sa'| == 1 {
      LetterOnePiece(a[0], sa', sb, rest);
    } else {
      LetterManyPieces(a[0], sa', sb, rest);
    }
  }

  lemma LetterOnePiece(c: char, sa: seq<string>, sb: seq<string>, rest: seq<string>)
    requires |sa| == 1 && |sb| > 0
    requires rest == sa[..0] + [sa[0] + sb[0]] + sb[1..]
    ensures [[c] + rest[0]] + rest[1..] ==
            [[c] + sa[0]][..0] + [[c] + sa[0] + sb[0]] + sb[1..]
  {
    assert rest[0] == sa[0] + sb[0];
    assert rest[1..] == sb[1..];
    assert [c] + (sa[0] + sb[0]) == [c] + sa[0] + sb[0];
  }

  lemma LetterManyPieces(c: char, sa: seq<string>, sb: seq<string>, rest: seq<string>)
    requires |sa| > 1 && |sb| > 0
    requires rest == sa[..|sa| - 1] + [Last(sa) + sb[0]] + sb[1..]
    ensures [[c] + rest[0]] + rest[1..] ==
            ([[c] + sa[0]] + sa[1..])[..|sa| - 1] + [Last([[c] + sa[0]] + sa[1..]) + sb[0]] + sb[1..]
  {
    var m := |sa|;
    assert rest[0] == sa[0];
    assert rest[1..] == sa[1..m - 1] + [Last(sa) + sb[0]] + sb[1..];
    assert ([[c] + sa[0]] + sa[1..])[..m - 1] == [[c] + sa[0]] + sa[1..m - 1];
    assert Last([[c] + sa[0]] + sa[1..]) == Last(sa);
  }

  /** A piece without spaces splits to itself. */
  lemma {:induction false} SplitWord(w: string)
    requires ' ' !in w
    ensures Split(w) == [w]
    decreases |w|
  {
    if |w| > 0 {
      assert ' ' !in w[1..] by { assert forall c :: c in w[1..] ==> c in w; }
      SplitWord(w[1..]);
      assert [w[0]] + w[1..] == w;
    }
  }

  /** Appending a space and a space-free piece appends exactly one word. */
  lemma SplitAppendWord(a: string, w: string)
    requires ' ' !in w
    ensures Split(a + " " + w) == Split(a) + [w]
  {
    SplitWord(w);
    assert Split(" " + w) == [""] + Split(w) by {
      assert (" " + w)[1..] == w;
    }
    SplitConcat(a, " " + w);
    assert a + " " + w == a + (" " + w);
    SnocStep(Split(a), w);
  }

  lemma SnocStep(sa: seq<string>, w: string)
    requires |sa| > 0
    ensures sa[..|sa| - 1] + [Last(sa) + ""] + [w] == sa + [w]
  {
    assert Last(sa) + "" == Last(sa);
    assert sa[..|sa| - 1] + [Last(sa)] == sa;
  }

  /** `split` undoes `join` when no piece contains a space. */
  lemma {:induction false} SplitJoin(ws: seq<string>)
    requires |ws| >= 1
    requires forall i :: 0 <= i < |ws| ==> ' ' !in ws[i]
    ensures Split(Join(ws)) == ws
    decreases |ws|
  {
    if |ws| == 1 {
      SplitWord(ws[0]);
    } else {
      var n := |ws|;
      SplitJoin(ws[..n - 1]);
      assert Join(ws) == Join(ws[..n - 1]) + " " + ws[n - 1] by {
        JoinSnoc(ws);
      }
      SplitAppendWord(Join(ws[..n - 1]), ws[n - 1]);
      assert ws[..n - 1] + [ws[n - 1]] == ws;
    }
  }

  lemma {:induction false} JoinSnoc(ws: seq<string>)
    requires |ws| >= 2
    ensures Join(ws) == Join(ws[..|ws| - 1]) + " " + ws[|ws| - 1]
    decreases |ws|
  {
    if |ws| > 2 {
      JoinSnoc(ws[1..]);
      assert ws[1..][..|ws| - 2] == ws[..|ws| - 1][1..];
    }
  }

  /** `join` undoes `split`. */
  lemma {:induction false} JoinSplit(s: string)
    ensures Join(Split(s)) == s
    decreases |s|
  {
    if |s| > 0 {
      var rest := Split(s[1..]);
      JoinSplit(s[1..]);
      if s[0] == ' ' {
        assert Split(s) == [""] + rest;
        JoinEmptyFirst(rest);
        assert s == " " + s[1..];
      } else {
        assert Split(s) == [[s[0]] + rest[0]] + rest[1..];
        JoinExtendFirst(s[0], rest);
        assert [s[0]] + s[1..] == s;
      }
    }
  }

  /** An empty first piece contributes only its separator. */
  lemma JoinEmptyFirst(ws: seq<string>)
    requires |ws| > 0
    ensures Join([""] + ws) == " " + Join(ws)
  {
    assert ([""] + ws)[1..] == ws;
  }

  /** Putting a character in front of the first piece puts it in front of the joined text. */
  lemma JoinExtendFirst(c: char, ws: seq<string>)
    requires |ws| > 0
    ensures Join([[c] + ws[0]] + ws[1..]) == [c] + Join(ws)
  {
    if |ws| == 1 {
      assert [[c] + ws[0]] + ws[1..] == [[c] + ws[0]];
    } else {
      JoinExtendFirstMany(c, ws);
    }
  }

  lemma JoinExtendFirstMany(c: char, ws: seq<string>)
    requires |ws| > 1
    ensures Join([[c] + ws[0]] + ws[1..]) == [c] + Join(ws)
  {
    var vs := [[c] + ws[0]] + ws[1..];
    var tail := Join(ws[1..]);
    assert Join(vs) == ([c] + ws[0]) + (" " + tail) by {
      assert vs[1..] == ws[1..];
    }
    ConsAssoc(c, ws[0], " " + tail);
  }

  lemma ConsAssoc(c: char, x: string, y: string)
    ensures ([c] + x) + y == [c] + (x + y)
  {
  }

  /* ---------------------------------------------------------------------
     strip / replace / collapse
     --------------------------------------------------------------------- */

  /** The characters Python's `str.isspace()` accepts, which `str.strip()` removes. */
  predicate IsSpace(c: char)
  {
    c == ' ' || ('\t' <= c <= '\r') || ('\U{1C}' <= c <= '\U{1F}') ||
    c == '\U{85}' || c == '\U{A0}' || c == '\U{1680}' || ('\U{2000}' <= c <= '\U{200A}') ||
    c == '\U{2028}' || c == '\U{2029}' || c == '\U{202F}' || c == '\U{205F}' || c == '\U{3000}'
  }

  function StripLeft(s: string): (r: string)
    ensures |r| <= |s| && r == s[|s| - |r|..]
    ensures |r| > 0 ==> !IsSpace(r[0])
    ensures forall i :: 0 <= i < |s| - |r| ==> IsSpace(s[i])
  {
    if |s| > 0 && IsSpace(s[0]) then StripLeft(s[1..]) else s
  }

  function StripRight(s: string): (r: string)
    ensures |r| <= |s| && r == s[..|r|]
    ensures |r| > 0 ==> !IsSpace(r[|r| - 1])
    ensures forall i :: |r| <= i < |s| ==> IsSpace(s[i])
  {
    if |s| > 0 && IsSpace(s[|s| - 1]) then StripRight(s[..|s| - 1]) else s
  }

  /**
   `s.strip()`: the infix of `s` left once whitespace is removed from both
   ends. It starts at the first non-whitespace character and neither starts
   nor ends with whitespace.
   */
  function Strip(s: string): (r: string)
    ensures |r| > 0 ==> !IsSpace(r[0]) && !IsSpace(r[|r| - 1])
    ensures StripStart(s) + |r| <= |s| && r == s[StripStart(s)..StripStart(s) + |r|]
    ensures forall i :: 0 <= i < StripStart(s) ==> IsSpace(s[i])
    ensures forall i :: StripStart(s) + |r| <= i < |s| ==> IsSpace(s[i])
  {
    var l := StripLeft(s);
    var r := StripRight(l);
    assert r == l[..|r|];
    assert l == s[StripStart(s)..];
    r
  }

  /** Where the stripped text starts in `s`. */
  function StripStart(s: string): nat
  {
    |s| - |StripLeft(s)|
  }

  lemma StripIdentity(s: string)
    requires |s| > 0 ==> !IsSpace(s[0]) && !IsSpace(s[|s| - 1])
    ensures Strip(s) == s
  {
    assert StripLeft(s) == s;
    assert StripRight(s) == s;
  }

  /** Stripping one leading space from a text that is otherwise already stripped. */
  lemma StripLeadingSpace(w: string)
    requires |w| > 0 && !IsSpace(w[0]) && !IsSpace(w[|w| - 1])
    ensures Strip(" " + w) == w
  {
    assert (" " + w)[1..] == w;
    assert StripLeft(" " + w) == StripLeft(w) == w;
    assert StripRight(w) == w;
  }

  /**
   `s.replace(a, b)` for one-character `a` and `b`: the length is kept, every
   `a` becomes `b`, every other character stays, and when `a != b` no `a` is
   left.
   */
  function Replace(s: string, a: char, b: char): (r: string)
    ensures |r| == |s|
    ensures forall i :: 0 <= i < |s| && s[i] != a ==> r[i] == s[i]
    ensures forall i :: 0 <= i < |s| && s[i] == a ==> r[i] == b
    ensures a != b ==> a !in r
  {
    seq(|s|, i requires 0 <= i < |s| => if s[i] == a then b else s[i])
  }

  predicate NoDoubleSpace(s: string)
  {
    forall i :: 0 <= i < |s| - 1 ==> !(s[i] == ' ' && s[i + 1] == ' ')
  }

  /** The number of positions of `s` where a space is followed by another space. */
  function DoubleSpaces(s: string): nat
    decreases |s|
  {
    if |s| <= 1 then 0
    else (if s[0] == ' ' && s[1] == ' ' then 1 else 0) + DoubleSpaces(s[1..])
  }

  /**
   `re.sub(' +', ' ', s)`: every run of spaces becomes a single space. Only
   spaces are removed, the ends are kept, and no two spaces remain adjacent;
   `CollapseSpacesCount` says how many spaces go.
   */
  function CollapseSpaces(s: string): (r: string)
    ensures NoDoubleSpace(r)
    ensures IsSubsequence(r, s)
    ensures forall c :: c != ' ' ==> Count(r, c) == Count(s, c)
    ensures |s| > 0 ==> |r| > 0 && r[0] == s[0] && r[|r| - 1] == s[|s| - 1]
    decreases |s|
  {
    if |s| <= 1 then
      assert |s| == 1 ==> s[1..] == [];
      s
    else if s[0] == ' ' && s[1] == ' ' then
      CollapseSpaces(s[1..])
    else
      var rest := CollapseSpaces(s[1..]);
      assert ([s[0]] + rest)[1..] == rest;
      [s[0]] + rest
  }

  /**
   Exactly one space is removed per adjacent pair of spaces, so a run of `m`
   spaces keeps one. With the contract of `CollapseSpaces` this fixes the
   result.
   */
  lemma {:induction false} CollapseSpacesCount(s: string)
    ensures Count(CollapseSpaces(s), ' ') + DoubleSpaces(s) == Count(s, ' ')
    decreases |s|
  {
    if |s| > 1 {
      CollapseSpacesCount(s[1..]);
      if !(s[0] == ' ' && s[1] == ' ') {
        var rest := CollapseSpaces(s[1..]);
        assert ([s[0]] + rest)[1..] == rest;
      }
    }
  }

  /** A string with no two adjacent spaces is left alone by `CollapseSpaces`. */
  lemma {:induction false} CollapseSpacesIdentity(s: string)
    requires NoDoubleSpace(s)
    ensures CollapseSpaces(s) == s
    decreases |s|
  {
    if |s| > 1 {
      CollapseSpacesIdentity(s[1..]);
      assert [s[0]] + s[1..] == s;
    }
  }

  /* ---------------------------------------------------------------------
     zip
     --------------------------------------------------------------------- */

  /** `zip(a, b)`: pairs up positions and stops at the end of the shorter sequence. */
  function Zip<A, B>(a: seq<A>, b: seq<B>): (r: seq<(A, B)>)
    ensures |r| == Min(|a|, |b|)
    ensures forall i :: 0 <= i < |r| ==> r[i] == (a[i], b[i])
    decreases |a|
  {
    if |a| == 0 || |b| == 0 then [] else [(a[0], b[0])] + Zip(a[1..], b[1..])
  }
}
