/** normalize_title of InfonetScrap.py: transliterate to ASCII, lower-case,
    turn every character outside [a-z0-9] into '_', collapse runs of '_' and
    trim '_' at both ends. */
module TitleNormalizer {

  predicate IsAscii(s: string)
  {
    forall i :: 0 <= i < |s| ==> s[i] < '\U{80}'
  }

  /** The characters a canonical label is made of: [a-z0-9_]. */
  predicate IsWordChar(c: char)
  {
    ('a' <= c <= 'z') || ('0' <= c <= '9') || c == '_'
  }

  /** The characters normalize_title keeps: [a-z0-9]. */
  predicate IsAlnum(c: char)
  {
    ('a' <= c <= 'z') || ('0' <= c <= '9')
  }

  predicate NotUnderscore(c: char)
  {
    c != '_'
  }

  /** The characters of s that satisfy keep, in order. */
  function Filter(s: string, keep: char -> bool): string
  {
    if s == [] then [] else (if keep(s[0]) then [s[0]] else []) + Filter(s[1..], keep)
  }

  predicate NoDoubleUnderscore(s: string)
  {
    forall i :: 0 <= i < |s| - 1 ==> !(s[i] == '_' && s[i + 1] == '_')
  }

  /** The form normalize_title produces. */
  predicate IsCanonical(s: string)
  {
    && (forall i :: 0 <= i < |s| ==> IsWordChar(s[i]))
    && NoDoubleUnderscore(s)
    && (|s| > 0 ==> s[0] != '_' && s[|s| - 1] != '_')
  }

  /** unidecode() of one character: ASCII is kept, the accented Latin letters
      of French text lose their accent, ligatures are spelt out, and every
      other character is dropped. */
  function Transliterate(c: char): (r: string)
    ensures IsAscii(r)
    ensures c < '\U{80}' ==> r == [c]
  {
    if c < '\U{80}' then [c]
    else if c in "\U{E0}\U{E1}\U{E2}\U{E3}\U{E4}\U{E5}" then "a"
    else if c in "\U{C0}\U{C1}\U{C2}\U{C3}\U{C4}\U{C5}" then "A"
    else if c in "\U{E8}\U{E9}\U{EA}\U{EB}" then "e"
    else if c in "\U{C8}\U{C9}\U{CA}\U{CB}" then "E"
    else if c in "\U{EC}\U{ED}\U{EE}\U{EF}" then "i"
    else if c in "\U{CC}\U{CD}\U{CE}\U{CF}" then "I"
    else if c in "\U{F2}\U{F3}\U{F4}\U{F5}\U{F6}" then "o"
    else if c in "\U{D2}\U{D3}\U{D4}\U{D5}\U{D6}" then "O"
    else if c in "\U{F9}\U{FA}\U{FB}\U{FC}" then "u"
    else if c in "\U{D9}\U{DA}\U{DB}\U{DC}" then "U"
    else if c == '\U{E7}' then "c"
    else if c == '\U{C7}' then "C"
    else if c == '\U{FF}' then "y"
    else if c == '\U{153}' then "oe"
    else if c == '\U{152}' then "OE"
    else if c == '\U{E6}' then "ae"
    else if c == '\U{C6}' then "AE"
    else if c == '\U{DF}' then "ss"
    else if c == '\U{A0}' then " "
    else if c == '\U{2019}' || c == '\U{2018}' then "'"
    else ""
  }

  /** unidecode(s): the transliterations of its characters, in order. */
  function Unidecode(s: string): (r: string)
    ensures IsAscii(r)
  {
    if s == [] then [] else Unidecode(s[..|s| - 1]) + Transliterate(s[|s| - 1])
  }

  /** ASCII text is left alone by unidecode. */
  lemma {:induction false} UnidecodeAscii(s: string)
    requires IsAscii(s)
    ensures Unidecode(s) == s
  {
    if s != [] {
      var init, last := s[..|s| - 1], s[|s| - 1];
      assert IsAscii(init);
      UnidecodeAscii(init);
      assert Transliterate(last) == [last];
      assert s == init + [last];
    }
  }

  /** str.lower() on ASCII text: each capital letter becomes its small
      letter and every other character stays. */
  function Lower(s: string): (r: string)
    ensures |r| == |s|
    ensures forall i :: 0 <= i < |s| ==>
      && ('A' <= s[i] <= 'Z' ==> 'a' <= r[i] <= 'z' && r[i] as int - 'a' as int == s[i] as int - 'A' as int)
      && (!('A' <= s[i] <= 'Z') ==> r[i] == s[i])
  {
    seq(|s|, i requires 0 <= i < |s| => if 'A' <= s[i] <= 'Z' then (s[i] as int + 32) as char else s[i])
  }

  /** re.sub(r'[^a-z0-9]', '_', s): the characters of [a-z0-9] stay where
      they are, and every other character becomes '_'. */
  function ReplaceOthers(s: string): (r: string)
    ensures |r| == |s| && forall i :: 0 <= i < |r| ==> IsWordChar(r[i])
    ensures forall i :: 0 <= i < |s| ==> (IsAlnum(s[i]) ==> r[i] == s[i]) && (!IsAlnum(s[i]) ==> r[i] == '_')
  {
    seq(|s|, i requires 0 <= i < |s| => if IsWordChar(s[i]) && s[i] != '_' then s[i] else '_')
  }

  /** re.sub(r'_+', '_', s): every run of '_' becomes one '_'. */
  function Collapse(s: string): (r: string)
  {
    if |s| <= 1 then s
    else if s[0] == '_' && s[1] == '_' then Collapse(s[1..])
    else [s[0]] + Collapse(s[1..])
  }

  /** Collapsing keeps the first and the last character. */
  lemma {:induction false} CollapseEnds(s: string)
    ensures |s| > 0 ==> |Collapse(s)| > 0 && Collapse(s)[0] == s[0] && Collapse(s)[|Collapse(s)| - 1] == s[|s| - 1]
    decreases |s|
  {
    if |s| > 1 {
      CollapseEnds(s[1..]);
    }
  }

  /** The first position from i on that does not hold '_'. */
  function SkipUnderscores(s: string, i: nat): (k: nat)
    requires i <= |s|
    ensures i <= k <= |s| && (k == |s| || s[k] != '_')
    decreases |s| - i
  {
    if i < |s| && s[i] == '_' then SkipUnderscores(s, i + 1) else i
  }

  /** The end of s[i..j] once its trailing '_' are dropped. */
  function TrimUnderscoresEnd(s: string, i: nat, j: nat): (k: nat)
    requires i <= j <= |s|
    ensures i <= k <= j && (k == i || s[k - 1] != '_')
    decreases j
  {
    if j > i && s[j - 1] == '_' then TrimUnderscoresEnd(s, i, j - 1) else j
  }

  /** s.strip('_'): the text between the leading and the trailing underscores. */
  function TrimUnderscores(s: string): (r: string)
    ensures |r| <= |s|
    ensures r == [] || (r[0] != '_' && r[|r| - 1] != '_')
  {
    var a := SkipUnderscores(s, 0);
    s[a..TrimUnderscoresEnd(s, a, |s|)]
  }

  /** The first three steps of normalize_title: transliterate, lower-case
      and replace every character outside [a-z0-9] by '_'. */
  function Substitute(title: string): (r: string)
    ensures |r| == |Unidecode(title)|
  {
    ReplaceOthers(Lower(Unidecode(title)))
  }

  /** normalize_title. */
  function Normalize(title: string): (r: string)
  {
    TrimUnderscores(Collapse(Substitute(title)))
  }

  /** Collapsing keeps a text made of word characters so. */
  lemma {:induction false} CollapseWordChars(s: string)
    requires forall k :: 0 <= k < |s| ==> IsWordChar(s[k])
    ensures forall k :: 0 <= k < |Collapse(s)| ==> IsWordChar(Collapse(s)[k])
    decreases |s|
  {
    if |s| > 1 {
      CollapseWordChars(s[1..]);
      if !(s[0] == '_' && s[1] == '_') {
        assert Collapse(s) == [s[0]] + Collapse(s[1..]);
      }
    }
  }

  /** Collapsing leaves no two adjacent underscores. */
  lemma {:induction false} CollapseNoDouble(s: string)
    ensures NoDoubleUnderscore(Collapse(s))
    decreases |s|
  {
    if |s| > 1 {
      CollapseNoDouble(s[1..]);
      if !(s[0] == '_' && s[1] == '_') {
        var t := Collapse(s[1..]);
        assert Collapse(s) == [s[0]] + t;
        CollapseEnds(s[1..]);
      }
    }
  }

  /** Collapsing changes nothing when there is no run to collapse. */
  lemma {:induction false} CollapseUnchanged(s: string)
    requires NoDoubleUnderscore(s)
    ensures Collapse(s) == s
    decreases |s|
  {
    if |s| > 1 {
      CollapseUnchanged(s[1..]);
    }
  }

  /** A slice of a string of word characters with no double underscore is one too. */
  lemma SliceKeepsShape(s: string, i: nat, j: nat)
    requires i <= j <= |s|
    requires forall k :: 0 <= k < |s| ==> IsWordChar(s[k])
    requires NoDoubleUnderscore(s)
    ensures forall k :: 0 <= k < j - i ==> IsWordChar(s[i..j][k])
    ensures NoDoubleUnderscore(s[i..j])
  {
    forall k | 0 <= k < j - i - 1 ensures !(s[i..j][k] == '_' && s[i..j][k + 1] == '_') {
      assert s[i..j][k] == s[i + k] && s[i..j][k + 1] == s[i + k + 1];
    }
  }

  /** normalize_title produces a canonical label. */
  lemma NormalizeCanonical(title: string)
    ensures IsCanonical(Normalize(title))
  {
    var r := ReplaceOthers(Lower(Unidecode(title)));
    assert forall k :: 0 <= k < |r| ==> IsWordChar(r[k]);
    var c := Collapse(r);
    CollapseNoDouble(r);
    CollapseWordChars(r);
    var a := SkipUnderscores(c, 0);
    var b := TrimUnderscoresEnd(c, a, |c|);
    SliceKeepsShape(c, a, b);
    assert c[a..b] == Normalize(title);
  }

  /** A canonical label is its own normal form. */
  lemma CanonicalUnchanged(s: string)
    requires IsCanonical(s)
    ensures Normalize(s) == s
  {
    assert IsAscii(s);
    UnidecodeAscii(s);
    assert Lower(s) == s;
    assert ReplaceOthers(s) == s;
    CollapseUnchanged(s);
    assert SkipUnderscores(s, 0) == 0;
    assert TrimUnderscoresEnd(s, 0, |s|) == |s|;
    assert s[0..|s|] == s;
  }

  /** normalize_title is idempotent, and its fixed points are exactly the
      canonical labels. */
  lemma NormalizeIdempotent(title: string)
    ensures Normalize(Normalize(title)) == Normalize(title)
    ensures Normalize(title) == title <==> IsCanonical(title)
  {
    NormalizeCanonical(title);
    CanonicalUnchanged(Normalize(title));
    if IsCanonical(title) {
      CanonicalUnchanged(title);
    }
  }

  /** Filtering two pieces is filtering each. */
  lemma {:induction false} FilterAppend(a: string, b: string, keep: char -> bool)
    ensures Filter(a + b, keep) == Filter(a, keep) + Filter(b, keep)
    decreases |a|
  {
    if a == [] {
      assert a + b == b;
    } else {
      var ab := a + b;
      assert ab[0] == a[0] && ab[1..] == a[1..] + b;
      FilterAppend(a[1..], b, keep);
      var head := if keep(a[0]) then [a[0]] else [];
      assert Filter(ab, keep) == head + Filter(a[1..] + b, keep);
      assert Filter(a, keep) == head + Filter(a[1..], keep);
    }
  }

  /** Text without a kept character filters to nothing. */
  lemma {:induction false} FilterNone(s: string, keep: char -> bool)
    requires forall i :: 0 <= i < |s| ==> !keep(s[i])
    ensures Filter(s, keep) == []
    decreases |s|
  {
    if s != [] {
      assert forall i :: 0 <= i < |s| - 1 ==> s[1..][i] == s[i + 1];
      FilterNone(s[1..], keep);
    }
  }

  /** After the substitution the characters other than '_' are exactly the
      [a-z0-9] characters of the text, in order. */
  lemma {:induction false} ReplaceOthersKeeps(s: string)
    ensures Filter(ReplaceOthers(s), NotUnderscore) == Filter(s, IsAlnum)
    decreases |s|
  {
    if s != [] {
      assert ReplaceOthers(s)[1..] == ReplaceOthers(s[1..]);
      ReplaceOthersKeeps(s[1..]);
    }
  }

  /** Collapsing removes underscores only: the other characters stay, in order. */
  lemma {:induction false} CollapseKeeps(s: string)
    ensures Filter(Collapse(s), NotUnderscore) == Filter(s, NotUnderscore)
    decreases |s|
  {
    if |s| > 1 {
      CollapseKeeps(s[1..]);
      if !(s[0] == '_' && s[1] == '_') {
        FilterAppend([s[0]], Collapse(s[1..]), NotUnderscore);
        assert [s[0]][1..] == [];
      }
    }
  }

  /** Every character skipped at the front is '_'. */
  lemma {:induction false} SkipUnderscoresOnly(s: string, i: nat)
    requires i <= |s|
    ensures forall m :: i <= m < SkipUnderscores(s, i) ==> s[m] == '_'
    decreases |s| - i
  {
    if i < |s| && s[i] == '_' {
      SkipUnderscoresOnly(s, i + 1);
    }
  }

  /** Every character dropped at the end is '_'. */
  lemma {:induction false} TrimUnderscoresEndOnly(s: string, i: nat, j: nat)
    requires i <= j <= |s|
    ensures forall m :: TrimUnderscoresEnd(s, i, j) <= m < j ==> s[m] == '_'
    decreases j
  {
    if j > i && s[j - 1] == '_' {
      TrimUnderscoresEndOnly(s, i, j - 1);
    }
  }

  /** strip('_') returns the text with underscores removed at both ends and
      nothing else: a slice of s with only '_' before and after it, which
      keeps every other character in order. */
  lemma TrimUnderscoresSlice(s: string) returns (a: nat)
    ensures var r := TrimUnderscores(s);
      && a + |r| <= |s| && r == s[a..a + |r|]
      && (forall m :: 0 <= m < a ==> s[m] == '_')
      && (forall m :: a + |r| <= m < |s| ==> s[m] == '_')
      && Filter(r, NotUnderscore) == Filter(s, NotUnderscore)
  {
    a := SkipUnderscores(s, 0);
    var b := TrimUnderscoresEnd(s, a, |s|);
    SkipUnderscoresOnly(s, 0);
    TrimUnderscoresEndOnly(s, a, |s|);
    assert s == s[..a] + s[a..b] + s[b..];
    DropUnderscoreEnds(s[..a], s[a..b], s[b..]);
  }

  /** Runs of '_' around a text do not change its other characters. */
  lemma DropUnderscoreEnds(front: string, middle: string, back: string)
    requires forall m :: 0 <= m < |front| ==> front[m] == '_'
    requires forall m :: 0 <= m < |back| ==> back[m] == '_'
    ensures Filter(front + middle + back, NotUnderscore) == Filter(middle, NotUnderscore)
  {
    UnderscoresOnly(front);
    UnderscoresOnly(back);
    FilterAppend(front, middle, NotUnderscore);
    FilterAppend(front + middle, back, NotUnderscore);
  }

  lemma UnderscoresOnly(s: string)
    requires forall m :: 0 <= m < |s| ==> s[m] == '_'
    ensures Filter(s, NotUnderscore) == []
  {
    FilterNone(s, NotUnderscore);
  }

  /** The letters and digits of a normalised title are exactly those of the
      lower-cased transliterated title, in order: normalize_title loses none
      of them and adds none, and only places underscores between them. */
  lemma NormalizeKeeps(title: string)
    ensures Filter(Normalize(title), NotUnderscore) == Filter(Lower(Unidecode(title)), IsAlnum)
  {
    var lowered := Lower(Unidecode(title));
    var replaced := ReplaceOthers(lowered);
    ReplaceOthersKeeps(lowered);
    CollapseKeeps(replaced);
    var _ := TrimUnderscoresSlice(Collapse(replaced));
  }

  predicate AllUnderscores(s: string)
  {
    forall m :: 0 <= m < |s| ==> s[m] == '_'
  }

  /** Collapsing two pieces collapses each of them, unless a run of '_'
      crosses the seam. */
  lemma {:induction false} CollapseAppend(x: string, y: string)
    requires x == [] || y == [] || x[|x| - 1] != '_' || y[0] != '_'
    ensures Collapse(x + y) == Collapse(x) + Collapse(y)
    decreases |x|
  {
    if x == [] {
      assert x + y == y;
    } else if y == [] {
      assert x + y == x;
    } else if |x| == 1 {
      assert (x + y)[1..] == y;
    } else {
      var xy := x + y;
      assert xy[0] == x[0] && xy[1] == x[1] && xy[1..] == x[1..] + y;
      CollapseAppend(x[1..], y);
      if x[0] == '_' && x[1] == '_' {
        assert Collapse(xy) == Collapse(x[1..] + y);
        assert Collapse(x) == Collapse(x[1..]);
      } else {
        assert Collapse(xy) == [x[0]] + Collapse(x[1..] + y);
        assert Collapse(x) == [x[0]] + Collapse(x[1..]);
      }
    }
  }

  /** A run of '_' collapses to a single '_'. */
  lemma {:induction false} CollapseRun(s: string)
    requires s != [] && AllUnderscores(s)
    ensures Collapse(s) == "_"
    decreases |s|
  {
    if |s| > 1 {
      CollapseRun(s[1..]);
    } else {
      assert s == [s[0]];
    }
  }

  /** re.sub(r'_+', '_', s) puts exactly one '_' where a run of '_' stood
      between two other characters, and collapses either side on its own. */
  lemma CollapseSeparator(a: string, run: string, b: string)
    requires a == [] || a[|a| - 1] != '_'
    requires run != [] && AllUnderscores(run)
    requires b == [] || b[0] != '_'
    ensures Collapse(a + run + b) == Collapse(a) + "_" + Collapse(b)
  {
    assert a + run + b == a + (run + b);
    CollapseAppend(a, run + b);
    CollapseAppend(run, b);
    CollapseRun(run);
  }

  /** SkipUnderscores stops at the first character other than '_'. */
  lemma {:induction false} SkipUnderscoresTo(s: string, i: nat, j: nat)
    requires i <= j < |s| && s[j] != '_'
    requires forall m :: i <= m < j ==> s[m] == '_'
    ensures SkipUnderscores(s, i) == j
    decreases j - i
  {
    if i < j {
      SkipUnderscoresTo(s, i + 1, j);
    }
  }

  /** TrimUnderscoresEnd stops after the last character other than '_'. */
  lemma {:induction false} TrimUnderscoresEndTo(s: string, i: nat, k: nat, j: nat)
    requires i < k <= j <= |s| && s[k - 1] != '_'
    requires forall m :: k <= m < j ==> s[m] == '_'
    ensures TrimUnderscoresEnd(s, i, j) == k
    decreases j
  {
    if k < j {
      TrimUnderscoresEndTo(s, i, k, j - 1);
    }
  }

  /** strip('_') returns the text framed by runs of '_'. */
  lemma TrimUnderscoresFrame(front: string, middle: string, back: string)
    requires AllUnderscores(front) && AllUnderscores(back)
    requires middle != [] && middle[0] != '_' && middle[|middle| - 1] != '_'
    ensures TrimUnderscores(front + middle + back) == middle
  {
    var s := front + middle + back;
    var a, b := |front|, |front| + |middle|;
    SkipUnderscoresTo(s, 0, a);
    TrimUnderscoresEndTo(s, a, b, |s|);
    assert s[a..b] == middle;
  }

  /** strip('_') of text made of '_' only is empty. */
  lemma TrimRun(s: string)
    requires AllUnderscores(s)
    ensures TrimUnderscores(s) == []
  {
  }

  /** Collapsing text made of '_' only leaves '_' only. */
  lemma CollapseRunOnly(s: string)
    requires AllUnderscores(s)
    ensures AllUnderscores(Collapse(s))
  {
    if s != [] {
      CollapseRun(s);
    }
  }

  /** A text is its strip('_') framed by two runs of '_'. */
  lemma UnderscoreFrame(s: string) returns (front: string, back: string)
    ensures s == front + TrimUnderscores(s) + back
    ensures AllUnderscores(front) && AllUnderscores(back)
  {
    var r := TrimUnderscores(s);
    var a := TrimUnderscoresSlice(s);
    front, back := s[..a], s[a + |r|..];
    assert s == front + s[a..a + |r|] + back;
  }

  /** Collapsing and then trimming gives the collapsed core of the text,
      the part between its leading and trailing '_', and gives nothing
      exactly when that core is empty. */
  lemma TrimCollapse(s: string)
    ensures var core := TrimUnderscores(s);
      && (core == [] <==> TrimUnderscores(Collapse(s)) == [])
      && (core != [] ==> TrimUnderscores(Collapse(s)) == Collapse(core))
  {
    if TrimUnderscores(s) == [] {
      TrimCollapseRun(s);
    } else {
      TrimCollapseCore(s);
    }
  }

  /** Text made of '_' only collapses and trims to nothing. */
  lemma TrimCollapseRun(s: string)
    requires TrimUnderscores(s) == []
    ensures TrimUnderscores(Collapse(s)) == []
  {
    var front, back := UnderscoreFrame(s);
    assert s == front + back;
    assert AllUnderscores(s) by {
      forall m | 0 <= m < |s| ensures s[m] == '_' {
        if m < |front| {
          assert s[m] == front[m];
        } else {
          assert s[m] == back[m - |front|];
        }
      }
    }
    CollapseRunOnly(s);
    TrimRun(Collapse(s));
  }

  /** Text with a non-empty core collapses and trims to its collapsed core. */
  lemma TrimCollapseCore(s: string)
    requires TrimUnderscores(s) != []
    ensures TrimUnderscores(Collapse(s)) == Collapse(TrimUnderscores(s)) != []
  {
    var core := TrimUnderscores(s);
    var front, back := UnderscoreFrame(s);
    CollapseRunOnly(front);
    CollapseRunOnly(back);
    CollapseEnds(core);
    CollapseFramed(front, core, back);
    TrimUnderscoresFrame(Collapse(front), Collapse(core), Collapse(back));
  }

  /** A text whose ends are not '_' collapses on its own between two others. */
  lemma CollapseFramed(front: string, core: string, back: string)
    requires core != [] && core[0] != '_' && core[|core| - 1] != '_'
    ensures Collapse(front + core + back) == Collapse(front) + Collapse(core) + Collapse(back)
  {
    assert front + core + back == front + (core + back);
    CollapseAppend(front, core + back);
    CollapseAppend(core, back);
  }

  /** Two texts with a non-empty core joined by a run of '_' collapse and
      trim to their collapsed cores joined by one '_'. */
  lemma TrimCollapseJoin(x: string, run: string, y: string)
    requires TrimUnderscores(x) != [] && TrimUnderscores(y) != []
    requires run != [] && AllUnderscores(run)
    ensures TrimUnderscores(Collapse(x + run + y))
      == Collapse(TrimUnderscores(x)) + "_" + Collapse(TrimUnderscores(y))
  {
    var joint := JoinCore(x, run, y);
    TrimCollapseCore(x + run + y);
    CollapseSeparator(TrimUnderscores(x), joint, TrimUnderscores(y));
  }

  /** The part of two texts joined by a run of '_' between its leading and
      trailing '_' is their two such parts joined by a longer run. */
  lemma JoinCore(x: string, run: string, y: string) returns (joint: string)
    requires TrimUnderscores(x) != [] && TrimUnderscores(y) != []
    requires run != [] && AllUnderscores(run)
    ensures joint != [] && AllUnderscores(joint)
    ensures TrimUnderscores(x + run + y) == TrimUnderscores(x) + joint + TrimUnderscores(y)
  {
    var xm, ym := TrimUnderscores(x), TrimUnderscores(y);
    var f1, k1 := UnderscoreFrame(x);
    var f2, k2 := UnderscoreFrame(y);
    joint := k1 + run + f2;
    RunsJoin(k1, run, f2);
    Regroup(f1, xm, k1, run, f2, ym, k2);
    TrimUnderscoresFrame(f1, xm + joint + ym, k2);
  }

  /** Three runs of '_' make one. */
  lemma RunsJoin(a: string, b: string, c: string)
    requires AllUnderscores(a) && AllUnderscores(b) && AllUnderscores(c)
    ensures AllUnderscores(a + b + c)
  {
  }

  lemma Regroup(f1: string, xm: string, k1: string, run: string, f2: string, ym: string, k2: string)
    ensures (f1 + xm + k1) + run + (f2 + ym + k2) == f1 + (xm + (k1 + run + f2) + ym) + k2
  {
  }

  /** unidecode works from the last character. */
  lemma UnidecodeLast(s: string)
    requires s != []
    ensures Unidecode(s) == Unidecode(s[..|s| - 1]) + Transliterate(s[|s| - 1])
  {
  }

  lemma AppendAssoc(a: string, b: string, c: string)
    ensures a + b + c == a + (b + c)
  {
  }

  /** unidecode of two pieces is the unidecode of each. */
  lemma {:induction false} UnidecodeAppend(x: string, y: string)
    ensures Unidecode(x + y) == Unidecode(x) + Unidecode(y)
    decreases |y|
  {
    if y == [] {
      assert x + y == x;
      assert Unidecode(y) == [];
    } else {
      var init, last := y[..|y| - 1], y[|y| - 1];
      var xy := x + y;
      assert xy[..|xy| - 1] == x + init && xy[|xy| - 1] == last;
      UnidecodeLast(xy);
      UnidecodeLast(y);
      UnidecodeAppend(x, init);
      AppendAssoc(Unidecode(x), Unidecode(init), Transliterate(last));
    }
  }

  /** Lower-casing and the substitution work character by character. */
  lemma SubstituteAppend(x: string, y: string)
    ensures ReplaceOthers(Lower(x + y)) == ReplaceOthers(Lower(x)) + ReplaceOthers(Lower(y))
  {
    assert Lower(x + y) == Lower(x) + Lower(y);
  }

  /** normalize_title puts exactly one '_' where a separator of punctuation
      or blanks stood between two titles that normalise to something: it
      neither drops the separator nor widens it. */
  lemma NormalizeJoin(a: string, sep: string, b: string)
    requires Normalize(a) != [] && Normalize(b) != []
    requires sep != []
    requires forall i :: 0 <= i < |sep| ==> sep[i] < '\U{80}' && !IsAlnum(sep[i]) && !('A' <= sep[i] <= 'Z')
    ensures Normalize(a + sep + b) == Normalize(a) + "_" + Normalize(b)
  {
    var sa, ss, sb := Substitute(a), Substitute(sep), Substitute(b);
    assert Substitute(a + sep + b) == sa + ss + sb by {
      UnidecodeAppend(a + sep, b);
      UnidecodeAppend(a, sep);
      SubstituteAppend(Unidecode(a) + Unidecode(sep), Unidecode(b));
      SubstituteAppend(Unidecode(a), Unidecode(sep));
    }
    assert ss != [] && AllUnderscores(ss) by {
      assert IsAscii(sep);
      UnidecodeAscii(sep);
    }
    TrimCollapse(sa);
    TrimCollapse(sb);
    TrimCollapseJoin(sa, ss, sb);
  }
}
