/** The string primitives of Python the table code relies on:
    str.strip(), str.endswith(), str.split(sep), str.lower() on ASCII text and
    substring search. */
module Strings {

  /** The characters Python's str.isspace() accepts, which str.strip(),
      float() and int() remove at both ends. */
  predicate IsSpace(c: char)
  {
    c == ' ' || c == '\t' || c == '\n' || c == '\r' || c == '\U{0B}' || c == '\U{0C}'
    || ('\U{1C}' <= c <= '\U{1F}') || c == '\U{85}' || c == '\U{A0}' || c == '\U{1680}'
    || ('\U{2000}' <= c <= '\U{200A}') || c == '\U{2028}' || c == '\U{2029}'
    || c == '\U{202F}' || c == '\U{205F}' || c == '\U{3000}'
  }

  /** The first position from i on that does not hold whitespace. */
  function SkipSpaces(s: string, i: nat): (k: nat)
    requires i <= |s|
    ensures i <= k <= |s| && (k == |s| || !IsSpace(s[k]))
    decreases |s| - i
  {
    if i < |s| && IsSpace(s[i]) then SkipSpaces(s, i + 1) else i
  }

  /** The end of s[i..j] once its trailing whitespace is dropped. */
  function TrimEnd(s: string, i: nat, j: nat): (k: nat)
    requires i <= j <= |s|
    ensures i <= k <= j && (k == i || !IsSpace(s[k - 1]))
    decreases j
  {
    if j > i && IsSpace(s[j - 1]) then TrimEnd(s, i, j - 1) else j
  }

  /** Python's str.strip() with no argument: the text between the leading
      and the trailing whitespace. */
  function Strip(s: string): (r: string)
    ensures |r| <= |s|
    ensures r == [] || (!IsSpace(r[0]) && !IsSpace(r[|r| - 1]))
  {
    var a := SkipSpaces(s, 0);
    s[a..TrimEnd(s, a, |s|)]
  }

  /** Every character Strip removes is whitespace. */
  lemma {:induction false} SkipSpacesOnlySpaces(s: string, i: nat)
    requires i <= |s|
    ensures forall m :: i <= m < SkipSpaces(s, i) ==> IsSpace(s[m])
    decreases |s| - i
  {
    if i < |s| && IsSpace(s[i]) {
      SkipSpacesOnlySpaces(s, i + 1);
    }
  }

  /** Every character Strip removes at the end is whitespace. */
  lemma {:induction false} TrimEndOnlySpaces(s: string, i: nat, j: nat)
    requires i <= j <= |s|
    ensures forall m :: TrimEnd(s, i, j) <= m < j ==> IsSpace(s[m])
    decreases j
  {
    if j > i && IsSpace(s[j - 1]) {
      TrimEndOnlySpaces(s, i, j - 1);
    }
  }

  /** Strip returns the text itself with whitespace removed at both ends
      and nothing else: it is the slice of s starting at a, and only
      whitespace lies before and after that slice. With the ensures of
      Strip (no whitespace at either end of the result) this slice is the
      only one possible. */
  lemma StripSlice(s: string) returns (a: nat)
    ensures a + |Strip(s)| <= |s| && Strip(s) == s[a..a + |Strip(s)|]
    ensures forall m :: 0 <= m < a ==> IsSpace(s[m])
    ensures forall m :: a + |Strip(s)| <= m < |s| ==> IsSpace(s[m])
  {
    a := SkipSpaces(s, 0);
    SkipSpacesOnlySpaces(s, 0);
    TrimEndOnlySpaces(s, a, |s|);
  }

  /** A string that neither starts nor ends with whitespace is left alone by Strip. */
  lemma StripUnchanged(s: string)
    requires s == [] || (!IsSpace(s[0]) && !IsSpace(s[|s| - 1]))
    ensures Strip(s) == s
  {
    assert SkipSpaces(s, 0) == 0;
    assert TrimEnd(s, 0, |s|) == |s|;
    assert s[0..|s|] == s;
  }

  /** Stripping a string whose only surrounding whitespace is one trailing
      blank returns the string without it. */
  lemma StripTrailingBlank(s: string)
    requires |s| > 0 && !IsSpace(s[0]) && !IsSpace(s[|s| - 1])
    ensures Strip(s + " ") == s
  {
    var t := s + " ";
    assert t[0] == s[0] && t[|s|] == ' ' && t[|s| - 1] == s[|s| - 1];
    assert SkipSpaces(t, 0) == 0;
    assert TrimEnd(t, 0, |s|) == |s|;
    assert TrimEnd(t, 0, |t|) == |s|;
    assert t[0..|s|] == s;
  }

  /** Python's str.endswith(suffix), compared character by character. */
  predicate EndsWith(s: string, suffix: string)
  {
    |suffix| <= |s| && forall k :: 0 <= k < |suffix| ==> s[|s| - |suffix| + k] == suffix[k]
  }

  /** The first position of c in s. */
  function IndexOf(s: string, c: char): (i: nat)
    requires c in s
    ensures i < |s| && s[i] == c && c !in s[..i]
  {
    if s[0] == c then 0 else 1 + IndexOf(s[1..], c)
  }

  /** Python's s.split(sep) for a one-character separator: the pieces between
      the separators. */
  function Split(s: string, sep: char): (r: seq<string>)
    ensures |r| >= 1
    decreases |s|
  {
    if sep !in s then [s]
    else
      var i := IndexOf(s, sep);
      [s[..i]] + Split(s[i + 1..], sep)
  }

  /** There is more than one piece exactly when the text holds a separator;
      the first piece is the text before the first separator. */
  lemma SplitFirst(s: string, sep: char)
    ensures var r := Split(s, sep);
      && (|r| > 1 <==> sep in s)
      && |r[0]| <= |s| && r[0] == s[..|r[0]|] && sep !in r[0]
      && (|r[0]| < |s| ==> s[|r[0]|] == sep)
  {
    if sep in s {
      var i := IndexOf(s, sep);
      assert Split(s, sep) == [s[..i]] + Split(s[i + 1..], sep);
    }
  }

  /** The piece after the last separator. */
  function LastPiece(s: string, sep: char): string
  {
    var r := Split(s, sep); r[|r| - 1]
  }

  /** The last piece is the text after the last separator. */
  lemma {:induction false} SplitLast(s: string, sep: char)
    ensures var last := LastPiece(s, sep);
      && |last| <= |s| && last == s[|s| - |last|..] && sep !in last
      && (|last| < |s| ==> s[|s| - |last| - 1] == sep)
    decreases |s|
  {
    if sep in s {
      var i := IndexOf(s, sep);
      var tail := s[i + 1..];
      var rest := Split(tail, sep);
      assert Split(s, sep) == [s[..i]] + rest;
      assert LastPiece(s, sep) == LastPiece(tail, sep);
      SplitLast(tail, sep);
      var last := LastPiece(tail, sep);
      assert |s| - |last| >= i + 1;
      SuffixOfSuffix(s, i + 1, |tail| - |last|);
      if |last| < |tail| {
        assert s[|s| - |last| - 1] == tail[|tail| - |last| - 1];
      }
    }
  }

  /** A suffix of a suffix is a suffix. */
  lemma SuffixOfSuffix(s: string, i: nat, k: nat)
    requires i + k <= |s|
    ensures s[i..][k..] == s[i + k..]
  {
  }

  /** The first piece is the only prefix without a separator that is
      followed by a separator or by the end of the text. */
  lemma FirstPieceUnique(s: string, sep: char, p: string)
    requires |p| <= |s| && sep !in p && (|p| < |s| ==> s[|p|] == sep)
    requires forall k :: 0 <= k < |p| ==> s[k] == p[k]
    ensures Split(s, sep)[0] == p
  {
    SplitFirst(s, sep);
  }

  /** The last piece is the only suffix without a separator that follows a
      separator or the start of the text. */
  lemma LastPieceUnique(s: string, sep: char, q: string)
    requires |q| <= |s| && sep !in q && (|q| < |s| ==> s[|s| - |q| - 1] == sep)
    requires forall p :: |s| - |q| <= p < |s| ==> s[p] == q[p - (|s| - |q|)]
    ensures LastPiece(s, sep) == q
  {
    SplitLast(s, sep);
    var last := LastPiece(s, sep);
    assert forall k :: 0 <= k < |last| ==> last[k] == s[|s| - |last| + k];
  }

  /** Pieces joined with the separator between consecutive pieces. */
  function Join(pieces: seq<string>, sep: char): string
  {
    if |pieces| == 0 then ""
    else if |pieces| == 1 then pieces[0]
    else pieces[0] + [sep] + Join(pieces[1..], sep)
  }

  lemma JoinCons(a: string, rest: seq<string>, sep: char)
    requires |rest| >= 1
    ensures Join([a] + rest, sep) == a + [sep] + Join(rest, sep)
  {
    assert ([a] + rest)[1..] == rest;
  }

  /** Splitting and joining again gives back the text. */
  lemma {:induction false} SplitJoin(s: string, sep: char)
    ensures Join(Split(s, sep), sep) == s
    decreases |s|
  {
    if sep in s {
      var i := IndexOf(s, sep);
      var rest := Split(s[i + 1..], sep);
      assert Split(s, sep) == [s[..i]] + rest;
      SplitJoin(s[i + 1..], sep);
      JoinCons(s[..i], rest, sep);
      assert s == s[..i] + [sep] + s[i + 1..];
    }
  }

  /** Python's s.split(' ')[0]: the text before the first blank. */
  function FirstToken(s: string): string
  {
    Split(s, ' ')[0]
  }

  /** The first token is the longest blank-free prefix. */
  lemma FirstTokenPrefix(s: string)
    ensures var r := FirstToken(s);
      |r| <= |s| && ' ' !in r && r == s[..|r|] && (|r| < |s| ==> s[|r|] == ' ')
  {
    SplitFirst(s, ' ');
  }

  /** Whether p occurs in s as a contiguous substring. */
  predicate Contains(s: string, p: string)
    decreases |s|
  {
    (|p| <= |s| && s[..|p|] == p) || (|s| > 0 && Contains(s[1..], p))
  }

  /** p occurs in s starting at position k. */
  predicate OccursAt(s: string, p: string, k: nat)
  {
    k + |p| <= |s| && s[k..k + |p|] == p
  }

  /** The text contains p exactly when p occurs at some position of it. */
  lemma {:induction false} ContainsAt(s: string, p: string)
    ensures Contains(s, p) <==> exists k: nat :: OccursAt(s, p, k)
    decreases |s|
  {
    if |p| <= |s| && s[..|p|] == p {
      assert OccursAt(s, p, 0);
    } else if |s| == 0 {
      forall k: nat ensures !OccursAt(s, p, k) {
      }
    } else {
      ContainsAt(s[1..], p);
      forall k: nat | OccursAt(s[1..], p, k) ensures OccursAt(s, p, k + 1) {
        assert s[1..][k..k + |p|] == s[k + 1..k + 1 + |p|];
      }
      forall k: nat | OccursAt(s, p, k) ensures k > 0 && OccursAt(s[1..], p, k - 1) {
        assert s[1..][k - 1..k - 1 + |p|] == s[k..k + |p|];
      }
    }
  }
}
