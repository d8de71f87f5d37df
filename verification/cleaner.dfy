/**
 `MSC.clean`: lower-case the text, fold `é`/`è` to `e`, turn newlines into
 spaces, strip both ends, collapse runs of spaces, then keep only the
 characters `a`–`z`, `0`–`9` and the space.
 */
module Cleaner {
  import opened PyBuiltins

  const E_ACUTE: char := '\U{E9}'        // é
  const E_GRAVE: char := '\U{E8}'        // è
  const CAP_E_ACUTE: char := '\U{C9}'    // É
  const CAP_E_GRAVE: char := '\U{C8}'    // È

  /** `str.lower()` on one character, restricted to ASCII letters and the two accented capitals the cleaner folds. */
  function LowerChar(c: char): char
  {
    if 'A' <= c <= 'Z' then (c as int + 32) as char
    else if c == CAP_E_ACUTE then E_ACUTE
    else if c == CAP_E_GRAVE then E_GRAVE
    else c
  }

  /**
   `str.lower()`: the length is kept, no upper-case ASCII letter, `É` or `È`
   is left, each ASCII capital becomes its small letter, `É` and `È` become
   `é` and `è`, and every other character stays.
   */
  function Lower(s: string): (r: string)
    ensures |r| == |s|
    ensures forall i :: 0 <= i < |r| ==> !('A' <= r[i] <= 'Z') && r[i] != CAP_E_ACUTE && r[i] != CAP_E_GRAVE
    ensures forall i :: 0 <= i < |s| && 'A' <= s[i] <= 'Z' ==> 'a' <= r[i] <= 'z' && r[i] as int == s[i] as int + 32
    ensures forall i :: 0 <= i < |s| && s[i] == CAP_E_ACUTE ==> r[i] == E_ACUTE
    ensures forall i :: 0 <= i < |s| && s[i] == CAP_E_GRAVE ==> r[i] == E_GRAVE
    ensures forall i :: 0 <= i < |s| && !('A' <= s[i] <= 'Z') && s[i] != CAP_E_ACUTE && s[i] != CAP_E_GRAVE ==>
              r[i] == s[i]
  {
    seq(|s|, i requires 0 <= i < |s| => LowerChar(s[i]))
  }

  /**
   The filter of the final loop: code 97–122, code 48–57, or the space. Every
   allowed character is its own lower-case form, and the space is the only
   whitespace among them.
   */
  predicate IsAllowed(c: char)
    ensures IsAllowed(c) ==> LowerChar(c) == c
    ensures IsAllowed(c) && IsSpace(c) ==> c == ' '
  {
    (97 <= c as int <= 122) || (48 <= c as int <= 57) || c == ' '
  }

  /**
   The string the final loop filters: lowered, accent-folded, newline-free,
   stripped and collapsed. It has no whitespace at either end and no two
   adjacent spaces.
   */
  function Tidy(text: string): (r: string)
    ensures |r| > 0 ==> !IsSpace(r[0]) && !IsSpace(r[|r| - 1])
    ensures NoDoubleSpace(r)
  {
    CollapseSpaces(Strip(Retype(text)))
  }

  /**
   The tidied text neither starts nor ends with whitespace, has no two
   adjacent spaces, and holds no newline, no upper-case ASCII letter and none
   of é, è, É, È.
   */
  lemma TidyShape(text: string)
    ensures var r := Tidy(text);
            && (|r| > 0 ==> !IsSpace(r[0]) && !IsSpace(r[|r| - 1]))
            && NoDoubleSpace(r)
            && forall i :: 0 <= i < |r| ==> IsTidyChar(r[i])
  {
    var oneLine := Retype(text);
    var stripped := Strip(oneLine);
    assert forall i :: 0 <= i < |oneLine| ==> IsTidyChar(oneLine[i]);
    StripKeepsChars(oneLine, IsTidyChar);
    CollapseKeepsChars(stripped, IsTidyChar);
  }

  /** Characters that can survive the first four stages of `Tidy`: no newline, upper-case ASCII letter, é, è, É or È. */
  predicate IsTidyChar(c: char)
  {
    c != '\n' && !('A' <= c <= 'Z') && c != E_ACUTE && c != E_GRAVE &&
    c != CAP_E_ACUTE && c != CAP_E_GRAVE
  }

  /** A character property every character of `s` has survives `Strip`. */
  lemma StripKeepsChars(s: string, p: char -> bool)
    requires forall i :: 0 <= i < |s| ==> p(s[i])
    ensures forall i :: 0 <= i < |Strip(s)| ==> p(Strip(s)[i])
  {
    var lo := StripStart(s);
    var r := Strip(s);
    assert forall i :: 0 <= i < |r| ==> r[i] == s[lo + i];
  }

  /** A character property every character of `s` has survives `CollapseSpaces` when spaces have it. */
  lemma {:induction false} CollapseKeepsChars(s: string, p: char -> bool)
    requires p(' ')
    ensures (forall i :: 0 <= i < |s| ==> p(s[i])) ==>
              forall i :: 0 <= i < |CollapseSpaces(s)| ==> p(CollapseSpaces(s)[i])
    decreases |s|
  {
    if |s| > 1 {
      CollapseKeepsChars(s[1..], p);
    }
  }

  /** The characters dropped by the filter and the ones it keeps, in order. */
  function KeepAllowed(s: string): (r: string)
    ensures forall i :: 0 <= i < |r| ==> IsAllowed(r[i])
    ensures IsSubsequence(r, s)
    ensures forall c :: IsAllowed(c) ==> Count(r, c) == Count(s, c)
    decreases |s|
  {
    if |s| == 0 then ""
    else if IsAllowed(s[0]) then
      var rest := KeepAllowed(s[1..]);
      assert ([s[0]] + rest)[1..] == rest;
      [s[0]] + rest
    else
      KeepAllowed(s[1..])
  }

  /**
   `MSC.clean`. The result uses only the allowed alphabet, is the tidied text
   with characters deleted (never inserted or reordered), and keeps every
   allowed character of the tidied text.
   */
  function Clean(text: string): (r: string)
    ensures forall i :: 0 <= i < |r| ==> IsAllowed(r[i])
    ensures IsSubsequence(r, Tidy(text))
    ensures forall c :: IsAllowed(c) ==> Count(r, c) == Count(Tidy(text), c)
  {
    KeepAllowed(Tidy(text))
  }

  /** The shape the cleaner aims for: allowed characters, single spaces between non-empty words. */
  predicate IsNormalized(t: string)
  {
    && (forall i :: 0 <= i < |t| ==> IsAllowed(t[i]))
    && (|t| > 0 ==> t[0] != ' ' && t[|t| - 1] != ' ')
    && NoDoubleSpace(t)
  }

  lemma {:induction false} KeepAllowedIdentity(s: string)
    requires forall i :: 0 <= i < |s| ==> IsAllowed(s[i])
    ensures KeepAllowed(s) == s
    decreases |s|
  {
    if |s| > 0 {
      KeepAllowedIdentity(s[1..]);
      assert [s[0]] + s[1..] == s;
    }
  }

  /** A normalized text is returned unchanged by `Clean`. */
  lemma CleanNormalized(t: string)
    requires IsNormalized(t)
    ensures Clean(t) == t
  {
    TidyNormalized(t);
    KeepAllowedIdentity(t);
  }

  lemma TidyNormalized(t: string)
    requires IsNormalized(t)
    ensures Tidy(t) == t
  {
    RetypeIdentity(t);
    StripIdentity(t);
    CollapseSpacesIdentity(t);
  }

  /**
   The first four stages of `Tidy`, character by character: an ASCII capital
   becomes its small letter, `é`, `è`, `É` and `È` become `e`, a newline
   becomes a space, and every other character stays. So no newline,
   upper-case ASCII letter or accented `e` is left.
   */
  function Retype(text: string): (r: string)
    ensures |r| == |text|
    ensures forall i :: 0 <= i < |r| ==> IsTidyChar(r[i])
    ensures forall i :: 0 <= i < |text| && 'A' <= text[i] <= 'Z' ==> r[i] as int == text[i] as int + 32
    ensures forall i :: 0 <= i < |text| && text[i] in {E_ACUTE, E_GRAVE, CAP_E_ACUTE, CAP_E_GRAVE} ==> r[i] == 'e'
    ensures forall i :: 0 <= i < |text| && text[i] == '\n' ==> r[i] == ' '
    ensures forall i :: 0 <= i < |text| && IsTidyChar(text[i]) ==> r[i] == text[i]
    ensures forall i :: 0 <= i < |text| && IsAllowed(text[i]) ==> r[i] == text[i]
  {
    Replace(Replace(Replace(Lower(text), E_ACUTE, 'e'), E_GRAVE, 'e'), '\n', ' ')
  }

  lemma RetypeIdentity(t: string)
    requires forall i :: 0 <= i < |t| ==> IsAllowed(t[i])
    ensures Retype(t) == t
  {
    assert Lower(t) == t;
    assert Replace(t, E_ACUTE, 'e') == t;
    assert Replace(t, E_GRAVE, 'e') == t;
    assert Replace(t, '\n', ' ') == t;
  }

  /** A text already in the shape `Tidy` produces is unchanged by it. */
  lemma TidyShapedIdentity(t: string)
    requires forall i :: 0 <= i < |t| ==> IsTidyChar(t[i])
    requires |t| > 0 ==> !IsSpace(t[0]) && !IsSpace(t[|t| - 1])
    requires NoDoubleSpace(t)
    ensures Tidy(t) == t
  {
    assert Retype(t) == t;
    StripIdentity(t);
    CollapseSpacesIdentity(t);
  }

  /** One space in front of a non-empty normalized text is stripped away again. */
  lemma TidyLeadingSpace(t: string)
    requires IsNormalized(t) && |t| > 0
    ensures Tidy(" " + t) == t
  {
    assert forall i :: 0 <= i < |" " + t| ==> IsAllowed((" " + t)[i]);
    RetypeIdentity(" " + t);
    assert IsAllowed(t[0]) && IsAllowed(t[|t| - 1]);
    StripLeadingSpace(t);
    CollapseSpacesIdentity(t);
  }

  /** The filter drops a disallowed first character in front of allowed ones. */
  lemma KeepAllowedDropsFirst(c: char, t: string)
    requires !IsAllowed(c)
    requires forall i :: 0 <= i < |t| ==> IsAllowed(t[i])
    ensures KeepAllowed([c] + t) == t
  {
    assert ([c] + t)[1..] == t;
    KeepAllowedIdentity(t);
  }

  /** A text whose first four stages already give a normalized text cleans to exactly that. */
  lemma CleanRetypedNormalized(t: string)
    requires IsNormalized(Retype(t))
    ensures Clean(t) == Retype(t)
  {
    var r := Retype(t);
    assert |r| > 0 ==> IsAllowed(r[0]) && IsAllowed(r[|r| - 1]);
    StripIdentity(r);
    CollapseSpacesIdentity(r);
    KeepAllowedIdentity(r);
  }

  /**
   A disallowed, non-whitespace character, a space and a non-empty normalized
   text: the filter runs last, so the space it uncovers stays.
   */
  lemma CleanDropsFirst(c: char, t: string)
    requires IsTidyChar(c) && !IsAllowed(c) && !IsSpace(c)
    requires IsNormalized(t) && |t| > 0
    ensures Clean([c] + " " + t) == " " + t
  {
    TidyDisallowedFirst(c, t);
    assert [c] + (" " + t) == [c] + " " + t;
    assert forall i :: 0 <= i < |" " + t| ==> IsAllowed((" " + t)[i]);
    KeepAllowedDropsFirst(c, " " + t);
  }

  /** The stages before the filter leave such a text unchanged. */
  lemma TidyDisallowedFirst(c: char, t: string)
    requires IsTidyChar(c) && !IsSpace(c)
    requires IsNormalized(t) && |t| > 0
    ensures Tidy([c] + " " + t) == [c] + " " + t
  {
    var u := [c] + " " + t;
    assert forall i :: 1 < i < |u| ==> u[i] == t[i - 2];
    assert IsAllowed(t[|t| - 1]);
    TidyShapedIdentity(u);
  }

  /** A space in front of a non-empty normalized text is stripped away. */
  lemma CleanLeadingSpace(t: string)
    requires IsNormalized(t) && |t| > 0
    ensures Clean(" " + t) == t
  {
    TidyLeadingSpace(t);
    KeepAllowedIdentity(t);
  }

  /**
   `Clean` is not idempotent: stripping and collapsing happen before the
   filter, so a space uncovered by the filter stays.
   */
  lemma CleanNotIdempotent()
    ensures Clean(". a") == " a"
    ensures Clean(" a") == "a"
  {
    var a := "a";
    assert IsNormalized(a);
    assert ['.'] + " " + a == ". a";
    assert " " + a == " a";
    CleanDropsFirst('.', a);
    CleanLeadingSpace(a);
  }

  /** Case and accents: `Clean("Café") == "cafe"`. */
  lemma CleanFoldsAccent()
    ensures Clean("Caf" + [E_ACUTE]) == "cafe"
  {
    var text := "Caf" + [E_ACUTE];
    assert Retype(text) == "cafe";
    assert IsNormalized("cafe");
    CleanRetypedNormalized(text);
  }
}
