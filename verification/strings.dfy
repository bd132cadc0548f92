/**
 * Character classes and the handful of Python string operations the core
 * relies on: `str.strip`, `re.sub(r"\s+", " ", …)`, `str.join`,
 * `str.split(",")`, `str(int)`, `int(str)` and left-to-right replacement of
 * every non-overlapping occurrence (`str.replace`, `re.sub` with an escaped
 * pattern).
 */
module Strings {
  import opened Wrappers

  // ---------------------------------------------------------------------
  // Character classes
  // ---------------------------------------------------------------------

  /** Python's `\s` / `str.isspace` for the characters this model covers:
      the ASCII controls TAB..CR, the separators 0x1C..0x1F, NEL, NBSP and the
      plain space. */
  predicate IsSpace(c: char) {
    c == ' ' || ('\t' <= c <= '\r') || ('\U{1C}' <= c <= '\U{1F}')
    || c == '\U{85}' || c == '\U{A0}'
  }

  predicate IsAsciiLetter(c: char) {
    ('a' <= c <= 'z') || ('A' <= c <= 'Z')
  }

  predicate IsDigit(c: char) {
    '0' <= c <= '9'
  }

  /** `str.isalnum` restricted to ASCII. */
  predicate IsAlnum(c: char) {
    IsAsciiLetter(c) || IsDigit(c)
  }

  /** The regex class `\w`: letters, digits and the underscore. */
  predicate IsWordChar(c: char) {
    IsAlnum(c) || c == '_'
  }

  /** `str.lower` on one character (ASCII case mapping). */
  function Lower(c: char): (r: char)
    ensures IsAsciiLetter(c) ==> IsAsciiLetter(r) && 'a' <= r <= 'z'
    ensures !('A' <= c <= 'Z') ==> r == c
  {
    if 'A' <= c <= 'Z' then (c as int + 32) as char else c
  }

  /** Character equality, case-folded when `ignoreCase` (the `re.IGNORECASE` flag). */
  predicate CharEq(a: char, b: char, ignoreCase: bool) {
    a == b || (ignoreCase && Lower(a) == Lower(b))
  }

  function LowerString(s: string): (r: string)
    ensures |r| == |s|
    ensures forall i :: 0 <= i < |s| ==> r[i] == Lower(s[i])
  {
    seq(|s|, i requires 0 <= i < |s| => Lower(s[i]))
  }

  predicate AllSpace(s: string) {
    forall i :: 0 <= i < |s| ==> IsSpace(s[i])
  }

  /** `p` occurs in `s` starting at index `i`. */
  predicate MatchesAt(s: string, i: nat, p: string, ignoreCase: bool) {
    i + |p| <= |s| && forall k :: 0 <= k < |p| ==> CharEq(s[i + k], p[k], ignoreCase)
  }

  predicate Occurs(s: string, p: string, ignoreCase: bool) {
    exists i: nat | i <= |s| :: MatchesAt(s, i, p, ignoreCase)
  }

  // ---------------------------------------------------------------------
  // str.strip()
  // ---------------------------------------------------------------------

  /** Drops the maximal whitespace prefix of `s` (`str.lstrip()`). */
  function StripLeft(s: string): (r: string)
    ensures |r| <= |s| && r == s[|s| - |r|..]
    ensures AllSpace(s[..|s| - |r|])
    ensures |r| > 0 ==> !IsSpace(r[0])
  {
    if |s| > 0 && IsSpace(s[0]) then StripLeft(s[1..]) else s
  }

  function StripRight(s: string): (r: string)
    ensures |r| <= |s| && r == s[..|r|]
    ensures AllSpace(s[|r|..])
    ensures |r| > 0 ==> !IsSpace(r[|r| - 1])
  {
    if |s| > 0 && IsSpace(s[|s| - 1]) then StripRight(s[..|s| - 1]) else s
  }

  /** `str.strip()`: the slice of `s` left after removing whitespace at both ends. */
  function Strip(s: string): (r: string)
    ensures exists i, j :: 0 <= i <= j <= |s| && r == s[i..j] && AllSpace(s[..i]) && AllSpace(s[j..])
    ensures |r| > 0 ==> !IsSpace(r[0]) && !IsSpace(r[|r| - 1])
  {
    var l := StripLeft(s);
    var r := StripRight(l);
    StripBounds(s, l, r);
    r
  }

  /** Where the two halves of `Strip` cut `s`. */
  lemma StripBounds(s: string, l: string, r: string)
    requires |l| <= |s| && l == s[|s| - |l|..] && AllSpace(s[..|s| - |l|])
    requires |r| <= |l| && r == l[..|r|] && AllSpace(l[|r|..])
    ensures exists i, j :: 0 <= i <= j <= |s| && r == s[i..j] && AllSpace(s[..i]) && AllSpace(s[j..])
  {
    var i, j := |s| - |l|, |s| - |l| + |r|;
    assert s[j..] == l[|r|..];
    assert r == s[i..j];
  }

  /** Stripping removes only whitespace. */
  lemma StripNonSpace(s: string)
    ensures NonSpace(Strip(s)) == NonSpace(s)
  {
    var i, j :| 0 <= i <= j <= |s| && Strip(s) == s[i..j] && AllSpace(s[..i]) && AllSpace(s[j..]);
    NonSpaceOfSplit(s[..i], s[i..j], s[j..]);
    SliceThree(s, i, j);
  }

  lemma SliceThree<T>(s: seq<T>, i: nat, j: nat)
    requires i <= j <= |s|
    ensures s[..i] + s[i..j] + s[j..] == s
  {
  }

  lemma NonSpaceOfSplit(a: string, b: string, c: string)
    requires AllSpace(a) && AllSpace(c)
    ensures NonSpace(a + b + c) == NonSpace(b)
  {
    NonSpaceAppend(a + b, c);
    NonSpaceAppend(a, b);
    NonSpaceOfAllSpace(a);
    NonSpaceOfAllSpace(c);
  }

  /** A string without whitespace at either end is its own strip. */
  lemma StripTrimmed(s: string)
    requires |s| > 0 ==> !IsSpace(s[0]) && !IsSpace(s[|s| - 1])
    ensures Strip(s) == s
  {
    assert StripLeft(s) == s;
    assert StripRight(s) == s;
  }

  /** A string strips to nothing exactly when it is all whitespace. */
  lemma StripEmptyIffAllSpace(s: string)
    ensures Strip(s) == "" <==> AllSpace(s)
  {
    var l := StripLeft(s);
    if !AllSpace(s) {
      var k :| 0 <= k < |s| && !IsSpace(s[k]);
      assert k >= |s| - |l|;
      assert l[k - (|s| - |l|)] == s[k];
      assert |StripRight(l)| > 0;
    }
  }

  // ---------------------------------------------------------------------
  // re.sub(r"\s+", " ", s)
  // ---------------------------------------------------------------------

  /** The non-whitespace characters of `s`, in order. */
  function NonSpace(s: string): string {
    if |s| == 0 then ""
    else if IsSpace(s[0]) then NonSpace(s[1..])
    else [s[0]] + NonSpace(s[1..])
  }

  /** Every whitespace character is a plain space and no two whitespace characters are adjacent. */
  predicate SingleSpaced(s: string) {
    && (forall i :: 0 <= i < |s| && IsSpace(s[i]) ==> s[i] == ' ')
    && (forall i :: 0 <= i < |s| - 1 ==> !(IsSpace(s[i]) && IsSpace(s[i + 1])))
  }

  /** Two strings without whitespace concatenate to one without whitespace. */
  lemma NoSpaceConcat(a: string, b: string)
    requires forall i :: 0 <= i < |a| ==> !IsSpace(a[i])
    requires forall i :: 0 <= i < |b| ==> !IsSpace(b[i])
    ensures forall i :: 0 <= i < |a + b| ==> !IsSpace((a + b)[i])
  {
  }

  lemma NonSpaceOfAllSpace(s: string)
    requires AllSpace(s)
    ensures NonSpace(s) == ""
  {
  }

  lemma {:induction false} NonSpaceAppend(a: string, b: string)
    ensures NonSpace(a + b) == NonSpace(a) + NonSpace(b)
  {
    if |a| > 0 {
      assert (a + b)[1..] == a[1..] + b;
      NonSpaceAppend(a[1..], b);
    } else {
      assert a + b == b;
    }
  }

  /** `re.sub(r"\s+", " ", s)`: every maximal whitespace run becomes one space. */
  function CollapseWs(s: string): (r: string)
    ensures |r| == 0 <==> |s| == 0
    ensures |r| > 0 ==> (IsSpace(r[0]) <==> IsSpace(s[0]))
    decreases |s|
  {
    if |s| == 0 then ""
    else if IsSpace(s[0]) then " " + CollapseWs(StripLeft(s))
    else [s[0]] + CollapseWs(s[1..])
  }

  /** The collapse leaves a single-spaced string with the same non-whitespace
      characters in the same order. */
  lemma CollapseWsShape(s: string)
    ensures SingleSpaced(CollapseWs(s))
    ensures NonSpace(CollapseWs(s)) == NonSpace(s)
  {
    CollapseWsSingle(s);
    CollapseWsNonSpace(s);
  }

  lemma {:induction false} CollapseWsSingle(s: string)
    ensures SingleSpaced(CollapseWs(s))
    decreases |s|
  {
    if |s| == 0 {
    } else if IsSpace(s[0]) {
      var rest := StripLeft(s);
      CollapseWsSingle(rest);
      SingleSpacedCons(' ', CollapseWs(rest));
    } else {
      CollapseWsSingle(s[1..]);
      SingleSpacedCons(s[0], CollapseWs(s[1..]));
    }
  }

  /** Putting a character in front of a single-spaced string keeps it single-spaced,
      unless it is whitespace other than a space or whitespace meets whitespace. */
  lemma SingleSpacedCons(c: char, t: string)
    requires SingleSpaced(t)
    requires IsSpace(c) ==> c == ' ' && (|t| > 0 ==> !IsSpace(t[0]))
    ensures SingleSpaced([c] + t)
  {
    var r := [c] + t;
    forall i | 0 <= i < |r| - 1
      ensures !(IsSpace(r[i]) && IsSpace(r[i + 1]))
    {
      if i > 0 {
        assert r[i] == t[i - 1] && r[i + 1] == t[i];
      }
    }
    forall i | 0 <= i < |r| && IsSpace(r[i])
      ensures r[i] == ' '
    {
      if i > 0 {
        assert r[i] == t[i - 1];
      }
    }
  }

  lemma {:induction false} CollapseWsNonSpace(s: string)
    ensures NonSpace(CollapseWs(s)) == NonSpace(s)
    decreases |s|
  {
    if |s| == 0 {
    } else if IsSpace(s[0]) {
      var rest := StripLeft(s);
      CollapseWsNonSpace(rest);
      var t := CollapseWs(rest);
      assert s == s[..|s| - |rest|] + rest;
      NonSpaceAppend(s[..|s| - |rest|], rest);
      NonSpaceOfAllSpace(s[..|s| - |rest|]);
      assert (" " + t)[1..] == t;
      assert CollapseWs(s) == " " + t;
    } else {
      CollapseWsNonSpace(s[1..]);
      var t := CollapseWs(s[1..]);
      assert ([s[0]] + t)[1..] == t;
      assert CollapseWs(s) == [s[0]] + t;
    }
  }

  /** The collapse ends in a space when its input ends in whitespace, and
      otherwise in the input's last character. */
  lemma {:induction false} CollapseWsLast(s: string)
    ensures var r := CollapseWs(s);
      |r| > 0 ==> r[|r| - 1] == if IsSpace(s[|s| - 1]) then ' ' else s[|s| - 1]
    decreases |s|
  {
    if |s| > 0 {
      if IsSpace(s[0]) {
        var rest := StripLeft(s);
        CollapseWsLast(rest);
        assert CollapseWs(s) == " " + CollapseWs(rest);
        if |rest| == 0 {
          assert IsSpace(s[..|s|][|s| - 1]);
        } else {
          SuffixLast(s, rest);
        }
        LastOfAppend(" ", CollapseWs(rest));
      } else {
        CollapseWsLast(s[1..]);
        assert CollapseWs(s) == [s[0]] + CollapseWs(s[1..]);
        LastOfAppend([s[0]], CollapseWs(s[1..]));
      }
    }
  }

  lemma SuffixLast(s: string, t: string)
    requires |t| > 0 && |t| <= |s| && t == s[|s| - |t|..]
    ensures s[|s| - 1] == t[|t| - 1]
  {
  }

  lemma LastOfAppend(a: string, b: string)
    requires |a| > 0
    ensures (a + b)[|a + b| - 1] == if |b| > 0 then b[|b| - 1] else a[|a| - 1]
  {
  }

  /** A string that is already single-spaced is left alone by the collapse. */
  lemma {:induction false} CollapseWsIdempotent(s: string)
    requires SingleSpaced(s)
    ensures CollapseWs(s) == s
    decreases |s|
  {
    if |s| > 0 {
      assert SingleSpaced(s[1..]);
      if IsSpace(s[0]) {
        assert |s| > 1 ==> !IsSpace(s[1]);
        assert StripLeft(s) == s[1..];
      }
      CollapseWsIdempotent(s[1..]);
    }
  }

  /** The collapse keeps a run without whitespace as it is, whatever follows it. */
  lemma {:induction false} CollapseWsWord(w: string, rest: string)
    requires NoSpace(w)
    ensures CollapseWs(w + rest) == w + CollapseWs(rest)
    decreases |w|
  {
    if |w| > 0 {
      var c, w' := w[0], w[1..];
      assert !IsSpace(c) && NoSpace(w');
      ConsAppend(w, rest);
      ConsAppend(w, CollapseWs(rest));
      CollapseWsCons(c, w' + rest);
      CollapseWsWord(w', rest);
    } else {
      assert w + rest == rest;
    }
  }

  lemma CollapseWsCons(c: char, s: string)
    requires !IsSpace(c)
    ensures CollapseWs([c] + s) == [c] + CollapseWs(s)
  {
    assert ([c] + s)[1..] == s;
  }

  /** A whitespace run, up to the next non-whitespace character, becomes one space. */
  lemma {:induction false} CollapseWsRun(sp: string, rest: string)
    requires |sp| > 0 && AllSpace(sp)
    requires |rest| > 0 ==> !IsSpace(rest[0])
    ensures CollapseWs(sp + rest) == " " + CollapseWs(rest)
  {
    StripLeftPast(sp, rest);
  }

  /** A word followed by a whitespace run: the word stays and the run becomes one space. */
  lemma {:induction false} CollapseWsLaw(w: string, sp: string, rest: string)
    requires |w| > 0 && NoSpace(w)
    requires |sp| > 0 && AllSpace(sp)
    requires |rest| > 0 ==> !IsSpace(rest[0])
    ensures CollapseWs(w + sp + rest) == w + " " + CollapseWs(rest)
  {
    assert w + sp + rest == w + (sp + rest);
    CollapseWsWord(w, sp + rest);
    CollapseWsRun(sp, rest);
  }

  /** Left-stripping skips a whitespace prefix. */
  lemma {:induction false} StripLeftPast(sp: string, rest: string)
    requires AllSpace(sp)
    ensures StripLeft(sp + rest) == StripLeft(rest)
    decreases |sp|
  {
    if |sp| > 0 {
      assert (sp + rest)[1..] == sp[1..] + rest;
      StripLeftPast(sp[1..], rest);
    } else {
      assert sp + rest == rest;
    }
  }

  // ---------------------------------------------------------------------
  // str.split() and " ".join(...)
  // ---------------------------------------------------------------------

  predicate NoSpace(s: string) {
    forall i :: 0 <= i < |s| ==> !IsSpace(s[i])
  }

  /** The longest prefix of `s` without whitespace. */
  function WordPrefix(s: string): (r: string)
    ensures |r| <= |s| && r == s[..|r|] && NoSpace(r)
    ensures |r| < |s| ==> IsSpace(s[|r|])
    ensures |s| > 0 && !IsSpace(s[0]) ==> |r| > 0
    decreases |s|
  {
    if |s| == 0 || IsSpace(s[0]) then ""
    else
      var r := [s[0]] + WordPrefix(s[1..]);
      assert r == s[..|r|];
      r
  }

  /** `s.split()`: the maximal runs of non-whitespace characters, in order. */
  function Words(s: string): seq<string>
    decreases |s|
  {
    var t := StripLeft(s);
    if |t| == 0 then []
    else
      var w := WordPrefix(t);
      [w] + Words(t[|w|..])
  }

  /** Collapsing whitespace and stripping the ends joins the words of `s`
      with single spaces: `" ".join(s.split())`. */
  lemma StripCollapseWords(s: string)
    ensures Strip(CollapseWs(s)) == Join(Words(s), " ")
  {
    StripCollapseLeading(s);
    WordsStripLeft(s);
    StripCollapseWordsTrimmed(StripLeft(s));
  }

  /** Leading whitespace does not change the stripped collapse. */
  lemma StripCollapseLeading(s: string)
    ensures Strip(CollapseWs(s)) == Strip(CollapseWs(StripLeft(s)))
  {
    if |s| > 0 && IsSpace(s[0]) {
      var t := StripLeft(s);
      assert CollapseWs(s) == " " + CollapseWs(t);
      StripLeftPast(" ", CollapseWs(t));
    }
  }

  lemma {:induction false} StripCollapseWordsTrimmed(t: string)
    requires |t| > 0 ==> !IsSpace(t[0])
    ensures Strip(CollapseWs(t)) == Join(Words(t), " ")
    decreases |t|
  {
    if |t| > 0 {
      var w := WordPrefix(t);
      var t2 := StripLeft(t[|w|..]);
      if |t2| == 0 {
        StripCollapseLastWord(t);
      } else {
        StripCollapseNextWord(t);
        StripCollapseWordsTrimmed(t2);
        JoinCons(w, Words(t2));
      }
    }
  }

  /** The induction step when only whitespace follows the first word. */
  lemma {:induction false} StripCollapseLastWord(t: string)
    requires |t| > 0 && !IsSpace(t[0])
    requires StripLeft(t[|WordPrefix(t)|..]) == ""
    ensures Strip(CollapseWs(t)) == WordPrefix(t) && Words(t) == [WordPrefix(t)]
  {
    var w := WordPrefix(t);
    var rest := t[|w|..];
    LastWordWords(t);
    assert t == w + rest;
    StripCollapseTrailingSpace(w, rest);
  }

  /** A text holding one word and trailing whitespace has that word alone. */
  lemma {:induction false} LastWordWords(t: string)
    requires |t| > 0 && !IsSpace(t[0])
    requires StripLeft(t[|WordPrefix(t)|..]) == ""
    ensures Words(t) == [WordPrefix(t)]
  {
    WordsStep(t);
    WordsStripLeft(t[|WordPrefix(t)|..]);
    assert Words("") == [];
  }

  /** A word followed only by whitespace collapses and strips to the word. */
  lemma {:induction false} StripCollapseTrailingSpace(w: string, rest: string)
    requires |w| > 0 && NoSpace(w)
    requires |rest| > 0 ==> IsSpace(rest[0])
    requires StripLeft(rest) == ""
    ensures Strip(CollapseWs(w + rest)) == w
  {
    if |rest| == 0 {
      assert w + rest == w + "" == w;
      CollapseWsWord(w, "");
      StripTrimmed(w);
    } else {
      CollapseWordGap(w, rest);
      assert CollapseWs(w + rest) == w + " " + "" == w + " ";
      StripWordSpace(w);
    }
  }

  /** The induction step when another word follows the first one. */
  lemma {:induction false} StripCollapseNextWord(t: string)
    requires |t| > 0 && !IsSpace(t[0])
    requires StripLeft(t[|WordPrefix(t)|..]) != ""
    ensures var w := WordPrefix(t);
      var t2 := StripLeft(t[|w|..]);
      && |t2| < |t| && !IsSpace(t2[0])
      && Strip(CollapseWs(t)) == w + " " + Strip(CollapseWs(t2))
      && Words(t) == [w] + Words(t2) && |Words(t2)| > 0
  {
    var w := WordPrefix(t);
    var rest := t[|w|..];
    var t2 := StripLeft(rest);
    assert t == w + rest;
    CollapseWordGap(w, rest);
    NextWordWords(t);
    StripJoinStep(w, CollapseWs(t2));
  }

  /** A word followed by whitespace: the word, one space, then the collapse of what follows the whitespace. */
  lemma {:induction false} CollapseWordGap(w: string, rest: string)
    requires NoSpace(w)
    requires |rest| > 0 && IsSpace(rest[0])
    ensures CollapseWs(w + rest) == w + " " + CollapseWs(StripLeft(rest))
  {
    CollapseWsWord(w, rest);
    var c2 := CollapseWs(StripLeft(rest));
    assert CollapseWs(rest) == " " + c2;
    assert w + (" " + c2) == w + " " + c2;
  }

  lemma {:induction false} NextWordWords(t: string)
    requires |t| > 0 && !IsSpace(t[0])
    requires StripLeft(t[|WordPrefix(t)|..]) != ""
    ensures var w := WordPrefix(t);
      var t2 := StripLeft(t[|w|..]);
      Words(t) == [w] + Words(t2) && |Words(t2)| > 0
  {
    var w := WordPrefix(t);
    var t2 := StripLeft(t[|w|..]);
    WordsStep(t);
    WordsStripLeft(t[|w|..]);
    assert StripLeft(t2) == t2;
  }

  /** Leading whitespace adds no word. */
  lemma WordsStripLeft(s: string)
    ensures Words(s) == Words(StripLeft(s))
  {
    var t := StripLeft(s);
    assert StripLeft(t) == t;
  }

  /** The words of a string that starts with a word: that word, then the words after it. */
  lemma WordsStep(t: string)
    requires |t| > 0 && !IsSpace(t[0])
    ensures Words(t) == [WordPrefix(t)] + Words(t[|WordPrefix(t)|..])
  {
    assert StripLeft(t) == t;
  }

  lemma JoinCons(w: string, ws: seq<string>)
    requires |ws| > 0
    ensures Join([w] + ws, " ") == w + " " + Join(ws, " ")
  {
    assert ([w] + ws)[1..] == ws;
  }

  /** Stripping a word, a space and text starting with a non-whitespace character strips only the text's end. */
  lemma StripJoinStep(w: string, c: string)
    requires |w| > 0 && NoSpace(w)
    requires |c| > 0 && !IsSpace(c[0])
    ensures Strip(w + " " + c) == w + " " + Strip(c)
  {
    var x := w + " ";
    assert StripLeft(x + c) == x + c;
    StripRightAppend(x, c);
    assert StripLeft(c) == c;
  }

  /** A word followed by one space strips to the word. */
  lemma StripWordSpace(w: string)
    requires |w| > 0 && NoSpace(w)
    ensures Strip(w + " ") == w
  {
    assert StripLeft(w + " ") == w + " ";
    assert (w + " ")[..|w|] == w;
    assert StripRight(w) == w;
  }

  /** Right-stripping text that starts with a non-whitespace character leaves everything before it. */
  lemma {:induction false} StripRightAppend(x: string, c: string)
    requires |c| > 0 && !IsSpace(c[0])
    ensures StripRight(x + c) == x + StripRight(c)
    decreases |c|
  {
    var n := |x + c|;
    if IsSpace(c[|c| - 1]) {
      assert (x + c)[..n - 1] == x + c[..|c| - 1];
      StripRightAppend(x, c[..|c| - 1]);
    }
  }

  /** Whitespace in front of `u` adds no word. */
  lemma WordsLeading(sp: string, u: string)
    requires AllSpace(sp)
    ensures Words(sp + u) == Words(u)
  {
    StripLeftPast(sp, u);
  }

  /** Whitespace after `x` adds no word. */
  lemma {:induction false} WordsTrailing(x: string, sp: string)
    requires AllSpace(sp)
    ensures Words(x + sp) == Words(x)
    decreases |x|, 1
  {
    var t := StripLeft(x);
    var p := x[..|x| - |t|];
    assert x == p + t;
    assert x + sp == p + (t + sp);
    WordsLeading(p, t + sp);
    WordsLeading(p, t);
    WordsTrailingTrimmed(t, sp);
  }

  lemma {:induction false} WordsTrailingTrimmed(t: string, sp: string)
    requires AllSpace(sp)
    requires |t| > 0 ==> !IsSpace(t[0])
    ensures Words(t + sp) == Words(t)
    decreases |t|, 0
  {
    if |t| == 0 {
      assert t + sp == sp;
      assert StripLeft(sp) == "";
    } else {
      var w := WordPrefix(t);
      assert Words(t + sp) == [w] + Words(t[|w|..] + sp) by {
        WordsStep(t + sp);
        WordPrefixAppend(t, sp);
        DropAppend(t, sp, |w|);
      }
      WordsStep(t);
      WordsTrailing(t[|w|..], sp);
    }
  }

  lemma ConsAppend<T>(a: seq<T>, b: seq<T>)
    requires |a| > 0
    ensures a + b == [a[0]] + (a[1..] + b)
  {
  }

  lemma DropAppend<T>(a: seq<T>, b: seq<T>, k: nat)
    requires k <= |a|
    ensures (a + b)[k..] == a[k..] + b
  {
  }

  lemma {:induction false} WordPrefixAppend(t: string, sp: string)
    requires AllSpace(sp)
    ensures WordPrefix(t + sp) == WordPrefix(t)
    decreases |t|
  {
    if |t| == 0 {
      assert t + sp == sp;
    } else if !IsSpace(t[0]) {
      assert (t + sp)[1..] == t[1..] + sp;
      WordPrefixAppend(t[1..], sp);
    }
  }

  /** Stripping the ends changes no word. */
  lemma WordsOfStrip(s: string)
    ensures Words(Strip(s)) == Words(s)
  {
    var i, j :| 0 <= i <= j <= |s| && Strip(s) == s[i..j] && AllSpace(s[..i]) && AllSpace(s[j..]);
    SliceThree(s, i, j);
    assert s == s[..i] + (s[i..j] + s[j..]);
    WordsLeading(s[..i], s[i..j] + s[j..]);
    WordsTrailing(s[i..j], s[j..]);
  }

  // ---------------------------------------------------------------------
  // re.sub(r"(\n *)+", "\n", s)
  // ---------------------------------------------------------------------

  function DropBlanks(s: string): (r: string)
    ensures |r| <= |s|
  {
    if |s| > 0 && s[0] == ' ' then DropBlanks(s[1..]) else s
  }

  /** Drops the maximal prefix of `s` that matches `(\n *)*`. */
  function DropNewlineRun(s: string): (r: string)
    ensures |r| <= |s|
    ensures |s| > 0 && s[0] == '\n' ==> |r| < |s|
    decreases |s|
  {
    if |s| > 0 && s[0] == '\n' then DropNewlineRun(DropBlanks(s[1..])) else s
  }

  /** `re.sub(r"(\n *)+", "\n", s)`: each run of newlines, each followed by blanks, becomes one newline. */
  function SquashNewlines(s: string): string
    decreases |s|
  {
    if |s| == 0 then ""
    else if s[0] == '\n' then "\n" + SquashNewlines(DropNewlineRun(s))
    else [s[0]] + SquashNewlines(s[1..])
  }

  /** Without a newline there is nothing for the substitution to match. */
  lemma {:induction false} SquashNewlinesNoNewline(s: string)
    requires forall i :: 0 <= i < |s| ==> s[i] != '\n'
    ensures SquashNewlines(s) == s
  {
    if |s| > 0 {
      SquashNewlinesNoNewline(s[1..]);
    }
  }

  // ---------------------------------------------------------------------
  // Replacing every non-overlapping occurrence, leftmost first
  // ---------------------------------------------------------------------

  /** `s.replace(pat, rep)` (or `re.sub(re.escape(pat), rep, s)` with the
      given case flag): scanning left to right, each occurrence of `pat` is
      replaced and scanning resumes after it. */
  function ReplaceAll(s: string, pat: string, rep: string, ignoreCase: bool): (r: string)
    requires |pat| > 0
    decreases |s|
  {
    if |s| == 0 then ""
    else if MatchesAt(s, 0, pat, ignoreCase) then rep + ReplaceAll(s[|pat|..], pat, rep, ignoreCase)
    else [s[0]] + ReplaceAll(s[1..], pat, rep, ignoreCase)
  }

  /** A position at which `p` occurs in `s`. */
  lemma OccurrenceIndex(s: string, p: string, ignoreCase: bool) returns (i: nat)
    requires Occurs(s, p, ignoreCase)
    ensures i + |p| <= |s| && MatchesAt(s, i, p, ignoreCase)
  {
    i :| i <= |s| && MatchesAt(s, i, p, ignoreCase);
  }

  /** An occurrence inside `a + b` that starts after `a` is an occurrence in `b`. */
  lemma MatchesAtSuffix(a: string, b: string, i: nat, p: string, ignoreCase: bool)
    requires i >= |a| && MatchesAt(a + b, i, p, ignoreCase)
    ensures MatchesAt(b, i - |a|, p, ignoreCase)
  {
    forall k | 0 <= k < |p| ensures CharEq(b[i - |a| + k], p[k], ignoreCase) {
      assert b[i - |a| + k] == (a + b)[i + k];
    }
  }

  /** An occurrence in `b` is an occurrence in `a + b`, shifted by `|a|`. */
  lemma MatchesAtExtend(a: string, b: string, i: nat, p: string, ignoreCase: bool)
    requires MatchesAt(b, i, p, ignoreCase)
    ensures MatchesAt(a + b, i + |a|, p, ignoreCase)
  {
    forall k | 0 <= k < |p| ensures CharEq((a + b)[i + |a| + k], p[k], ignoreCase) {
      assert (a + b)[i + |a| + k] == b[i + k];
    }
  }

  /** An occurrence in a suffix is an occurrence in the whole string. */
  lemma OccursTail(s: string, d: nat, pat: string, ignoreCase: bool)
    requires d <= |s|
    requires Occurs(s[d..], pat, ignoreCase)
    ensures Occurs(s, pat, ignoreCase)
  {
    var i := OccurrenceIndex(s[d..], pat, ignoreCase);
    assert s == s[..d] + s[d..];
    MatchesAtExtend(s[..d], s[d..], i, pat, ignoreCase);
  }

  /** With nothing to replace, the replacement is the identity. */
  lemma {:induction false} ReplaceAllNoOccurrence(s: string, pat: string, rep: string, ignoreCase: bool)
    requires |pat| > 0
    requires !Occurs(s, pat, ignoreCase)
    ensures ReplaceAll(s, pat, rep, ignoreCase) == s
    decreases |s|
  {
    if |s| > 0 {
      assert !MatchesAt(s, 0, pat, ignoreCase);
      if Occurs(s[1..], pat, ignoreCase) {
        OccursTail(s, 1, pat, ignoreCase);
      }
      ReplaceAllNoOccurrence(s[1..], pat, rep, ignoreCase);
    }
  }

  /** A prefix in which no occurrence of `pat` begins is copied unchanged. */
  lemma {:induction false} ReplaceAllCopy(a: string, b: string, pat: string, rep: string, ignoreCase: bool)
    requires |pat| > 0
    requires forall j :: 0 <= j < |a| ==> !MatchesAt(a + b, j, pat, ignoreCase)
    ensures ReplaceAll(a + b, pat, rep, ignoreCase) == a + ReplaceAll(b, pat, rep, ignoreCase)
    decreases |a|
  {
    if |a| == 0 {
      assert a + b == b;
    } else {
      var t := a[1..] + b;
      ConsAppend(a, b);
      assert !MatchesAt([a[0]] + t, 0, pat, ignoreCase);
      assert ([a[0]] + t)[1..] == t;
      forall j | 0 <= j < |a| - 1
        ensures !MatchesAt(t, j, pat, ignoreCase)
      {
        if MatchesAt(t, j, pat, ignoreCase) {
          MatchesAtExtend([a[0]], t, j, pat, ignoreCase);
        }
      }
      ReplaceAllCopy(a[1..], b, pat, rep, ignoreCase);
      ConsAppend(a, ReplaceAll(b, pat, rep, ignoreCase));
    }
  }

  /** The leftmost occurrence is replaced, everything before it is copied, and
      scanning resumes right after it. With `ReplaceAllNoOccurrence` this
      determines the result for every input. */
  lemma {:induction false} ReplaceAllStep(s: string, i: nat, pat: string, rep: string, ignoreCase: bool)
    requires |pat| > 0 && MatchesAt(s, i, pat, ignoreCase)
    requires forall j :: 0 <= j < i ==> !MatchesAt(s, j, pat, ignoreCase)
    ensures ReplaceAll(s, pat, rep, ignoreCase) == s[..i] + rep + ReplaceAll(s[i + |pat|..], pat, rep, ignoreCase)
  {
    var u := s[i..];
    assert s == s[..i] + u;
    ReplaceAllCopy(s[..i], u, pat, rep, ignoreCase);
    MatchesAtSuffix(s[..i], u, i, pat, ignoreCase);
    assert u[|pat|..] == s[i + |pat|..];
    assert s[..i] + (rep + ReplaceAll(u[|pat|..], pat, rep, ignoreCase))
        == s[..i] + rep + ReplaceAll(u[|pat|..], pat, rep, ignoreCase);
  }

  /** An occurrence lying wholly inside the prefix `a` of `a + b` is one in `a`, and back. */
  lemma MatchesAtPrefix(a: string, b: string, j: nat, p: string, ignoreCase: bool)
    requires j + |p| <= |a|
    ensures MatchesAt(a + b, j, p, ignoreCase) <==> MatchesAt(a, j, p, ignoreCase)
  {
    forall k | 0 <= k < |p|
      ensures CharEq((a + b)[j + k], p[k], ignoreCase) <==> CharEq(a[j + k], p[k], ignoreCase)
    {
      assert (a + b)[j + k] == a[j + k];
    }
  }

  /** After a text free of `p`, a shielding `rep` starts no occurrence of `p`
      before its end, whatever follows. */
  lemma {:induction false} ShieldedAfter(pre: string, rep: string, u: string, p: string, ignoreCase: bool)
    requires Shields(rep, p, ignoreCase)
    requires forall j :: 0 <= j < |pre| ==> !MatchesAt(pre, j, p, ignoreCase)
    ensures forall j :: 0 <= j < |pre| + |rep| ==> !MatchesAt(pre + rep + u, j, p, ignoreCase)
  {
    var s := pre + rep + u;
    assert s == pre + (rep + u);
    forall j | 0 <= j < |pre| + |rep|
      ensures !MatchesAt(s, j, p, ignoreCase)
    {
      if j >= |pre| {
        ShieldedInside(rep, p, j - |pre|, u, ignoreCase);
        if MatchesAt(s, j, p, ignoreCase) {
          MatchesAtSuffix(pre, rep + u, j, p, ignoreCase);
        }
      } else if j + |p| <= |pre| {
        MatchesAtPrefix(pre, rep + u, j, p, ignoreCase);
      } else {
        var m := |pre| - j;
        assert Clash(rep, p, 0, m, ignoreCase);
        var a :| 0 <= a < |rep| && m + a < |p| && !CharEq(rep[a], p[m + a], ignoreCase);
        assert s[j + (m + a)] == rep[a];
      }
    }
  }

/** Aligning `rep[o..]` with `p[m..]`, some overlapping pair of characters differs. */
  predicate Clash(rep: string, p: string, o: nat, m: nat, ignoreCase: bool) {
    exists a :: o <= a < |rep| && m + (a - o) < |p| && !CharEq(rep[a], p[m + (a - o)], ignoreCase)
  }

  /** `rep` can take part in no occurrence of `p`: no occurrence can start
      inside `rep`, and no occurrence begun before `rep` can run into it. */
  predicate Shields(rep: string, p: string, ignoreCase: bool) {
    && |p| > 0
    && (forall o: nat :: o < |rep| ==> Clash(rep, p, o, 0, ignoreCase))
    && (forall m: nat :: 1 <= m < |p| ==> Clash(rep, p, 0, m, ignoreCase))
  }

  /** No proper suffix of `p` begins at the start of a shielding `rep`. */
  lemma ShieldedStart(rep: string, p: string, m: nat, t: string, ignoreCase: bool)
    requires Shields(rep, p, ignoreCase) && 1 <= m < |p|
    ensures !MatchesAt(rep + t, 0, p[m..], ignoreCase)
  {
    assert Clash(rep, p, 0, m, ignoreCase);
    var a :| 0 <= a < |rep| && m + a < |p| && !CharEq(rep[a], p[m + a], ignoreCase);
    assert (rep + t)[a] == rep[a] && p[m..][a] == p[m + a];
  }

  /** No occurrence of `p` begins inside a shielding `rep`. */
  lemma ShieldedInside(rep: string, p: string, i: nat, t: string, ignoreCase: bool)
    requires Shields(rep, p, ignoreCase) && i < |rep|
    ensures !MatchesAt(rep + t, i, p, ignoreCase)
  {
    assert Clash(rep, p, i, 0, ignoreCase);
    var a :| i <= a < |rep| && a - i < |p| && !CharEq(rep[a], p[a - i], ignoreCase);
    assert (rep + t)[i + (a - i)] == rep[a];
  }

  /** When the result of a shielded replacement begins with a proper suffix
      `p[m..]` of `p`, so did its input. */
  lemma {:induction false} ReplaceAllPrefix(s: string, pat: string, rep: string, patCase: bool, p: string, m: nat, ignoreCase: bool)
    requires |pat| > 0 && Shields(rep, p, ignoreCase)
    requires 1 <= m < |p|
    requires MatchesAt(ReplaceAll(s, pat, rep, patCase), 0, p[m..], ignoreCase)
    ensures MatchesAt(s, 0, p[m..], ignoreCase)
    decreases |s|
  {
    var r := ReplaceAll(s, pat, rep, patCase);
    var w := p[m..];
    if |s| == 0 {
    } else if MatchesAt(s, 0, pat, patCase) {
      ShieldedStart(rep, p, m, ReplaceAll(s[|pat|..], pat, rep, patCase), ignoreCase);
      assert false;
    } else {
      var t := ReplaceAll(s[1..], pat, rep, patCase);
      assert r == [s[0]] + t;
      if m + 1 < |p| {
        assert MatchesAt(t, 0, p[m + 1..], ignoreCase) by {
          forall k | 0 <= k < |p[m + 1..]|
            ensures CharEq(t[k], p[m + 1..][k], ignoreCase)
          {
            assert t[k] == r[k + 1] && p[m + 1..][k] == w[k + 1];
          }
        }
        ReplaceAllPrefix(s[1..], pat, rep, patCase, p, m + 1, ignoreCase);
      }
      forall k | 0 <= k < |w|
        ensures CharEq(s[k], w[k], ignoreCase)
      {
        if k == 0 {
          assert s[0] == r[0];
        } else {
          assert s[k] == s[1..][k - 1] && w[k] == p[m + 1..][k - 1];
        }
      }
    }
  }

  /** Replacing `pat` (matched with case flag `patCase`) by a shielding `rep`
      keeps a string free of `p` when it was free of `p`; when `p` is `pat`
      itself, under the same flag, the input need not be free of it. */
  lemma {:induction false} ReplaceAllKeepsFree(s: string, pat: string, rep: string, patCase: bool, p: string, ignoreCase: bool)
    requires |pat| > 0
    requires Shields(rep, p, ignoreCase)
    requires (p == pat && patCase == ignoreCase) || !Occurs(s, p, ignoreCase)
    ensures !Occurs(ReplaceAll(s, pat, rep, patCase), p, ignoreCase)
    decreases |s|
  {
    var r := ReplaceAll(s, pat, rep, patCase);
    if |s| == 0 {
      return;
    }
    if MatchesAt(s, 0, pat, patCase) {
      var rest := s[|pat|..];
      if (p != pat || patCase != ignoreCase) && Occurs(rest, p, ignoreCase) {
        OccursTail(s, |pat|, p, ignoreCase);
        assert false;
      }
      ReplaceAllKeepsFree(rest, pat, rep, patCase, p, ignoreCase);
      var t := ReplaceAll(rest, pat, rep, patCase);
      assert r == rep + t;
      if Occurs(r, p, ignoreCase) {
        var i := OccurrenceIndex(r, p, ignoreCase);
        if i < |rep| {
          ShieldedInside(rep, p, i, t, ignoreCase);
          assert false;
        } else {
          MatchesAtSuffix(rep, t, i, p, ignoreCase);
        }
      }
    } else {
      var t := ReplaceAll(s[1..], pat, rep, patCase);
      if (p != pat || patCase != ignoreCase) && Occurs(s[1..], p, ignoreCase) {
        OccursTail(s, 1, p, ignoreCase);
        assert false;
      }
      ReplaceAllKeepsFree(s[1..], pat, rep, patCase, p, ignoreCase);
      assert r == [s[0]] + t;
      if Occurs(r, p, ignoreCase) {
        var i := OccurrenceIndex(r, p, ignoreCase);
        if i == 0 {
          // An occurrence at the front: the rest of it lies in `t`, and so in `s[1..]`.
          if |p| > 1 {
            assert MatchesAt(t, 0, p[1..], ignoreCase) by {
              forall k | 0 <= k < |p[1..]| ensures CharEq(t[k], p[1..][k], ignoreCase) {
                assert t[k] == r[k + 1];
              }
            }
            ReplaceAllPrefix(s[1..], pat, rep, patCase, p, 1, ignoreCase);
          }
          assert MatchesAt(s, 0, p, ignoreCase) by {
            forall k | 0 <= k < |p| ensures CharEq(s[k], p[k], ignoreCase) {
              if k == 0 {
                assert s[0] == r[0];
              } else {
                assert s[k] == s[1..][k - 1] && p[k] == p[1..][k - 1];
              }
            }
          }
          assert Occurs(s, p, ignoreCase);
        } else {
          MatchesAtSuffix([s[0]], t, i, p, ignoreCase);
        }
      }
    }
  }

  // ---------------------------------------------------------------------
  // str.join / str.split(sep)
  // ---------------------------------------------------------------------

  /** `sep.join(parts)`. */
  function Join(parts: seq<string>, sep: string): string
    decreases |parts|
  {
    if |parts| == 0 then ""
    else if |parts| == 1 then parts[0]
    else parts[0] + sep + Join(parts[1..], sep)
  }

  predicate Excludes(s: string, c: char) {
    forall i :: 0 <= i < |s| ==> s[i] != c
  }

  /** `s.split(sep)` for a one-character separator: never empty, the pieces
      contain no separator, and joining them back gives `s`. */
  function Split(s: string, sep: char): (r: seq<string>)
    ensures |r| > 0
    ensures forall k :: 0 <= k < |r| ==> Excludes(r[k], sep)
    ensures Join(r, [sep]) == s
    decreases |s|
  {
    if |s| == 0 then [""]
    else
      var rest := Split(s[1..], sep);
      if s[0] == sep then
        assert s == [sep] + s[1..];
        [""] + rest
      else
        var r := [[s[0]] + rest[0]] + rest[1..];
        assert r[1..] == rest[1..];
        assert s == [s[0]] + s[1..];
        r
  }

  lemma {:induction false} SplitPrefix(a: string, sep: char, t: string)
    requires Excludes(a, sep)
    ensures Split(a + [sep] + t, sep) == [a] + Split(t, sep)
    decreases |a|
  {
    if |a| == 0 {
      assert a + [sep] + t == [sep] + t;
      assert ([sep] + t)[1..] == t;
    } else {
      assert (a + [sep] + t)[1..] == a[1..] + [sep] + t;
      SplitPrefix(a[1..], sep, t);
      var rest := Split(a[1..] + [sep] + t, sep);
      assert rest[1..] == Split(t, sep);
      assert [a[0]] + rest[0] == a;
    }
  }

  /** Splitting a join of separator-free pieces gives the pieces back. */
  lemma {:induction false} SplitJoin(parts: seq<string>, sep: char)
    requires |parts| > 0
    requires forall k :: 0 <= k < |parts| ==> Excludes(parts[k], sep)
    ensures Split(Join(parts, [sep]), sep) == parts
    decreases |parts|
  {
    if |parts| == 1 {
      SplitNoSep(parts[0], sep);
    } else {
      SplitJoin(parts[1..], sep);
      SplitPrefix(parts[0], sep, Join(parts[1..], [sep]));
      assert parts == [parts[0]] + parts[1..];
    }
  }

  lemma {:induction false} SplitNoSep(s: string, sep: char)
    requires Excludes(s, sep)
    ensures Split(s, sep) == [s]
    decreases |s|
  {
    if |s| > 0 {
      SplitNoSep(s[1..], sep);
      assert s == [s[0]] + s[1..];
    }
  }

  // ---------------------------------------------------------------------
  // str(int) and int(str)
  // ---------------------------------------------------------------------

  function DigitChar(d: nat): char
    requires d < 10
  {
    ('0' as int + d) as char
  }

  function DigitValue(c: char): nat
    requires IsDigit(c)
  {
    c as int - '0' as int
  }

  predicate AllDigits(s: string) {
    forall i :: 0 <= i < |s| ==> IsDigit(s[i])
  }

  /** Decimal digits of `n`, most significant first, without leading zeros. */
  function NatToString(n: nat): (r: string)
    ensures |r| > 0 && AllDigits(r)
    ensures r[0] == '0' ==> n == 0
  {
    if n < 10 then [DigitChar(n)] else NatToString(n / 10) + [DigitChar(n % 10)]
  }

  /** The number a non-empty run of decimal digits denotes. */
  function DigitsValue(s: string): nat
    requires AllDigits(s)
  {
    if |s| == 0 then 0 else 10 * DigitsValue(s[..|s| - 1]) + DigitValue(s[|s| - 1])
  }

  /** `str(n)`. */
  function IntToString(n: int): (r: string)
    ensures |r| > 0
    ensures n >= 0 ==> AllDigits(r)
    ensures Excludes(r, ',')
  {
    if n < 0 then "-" + NatToString(-n) else NatToString(n)
  }

  /** `int(s)` for an optionally signed run of ASCII digits, with single
      underscores allowed between digits, surrounded by optional whitespace;
      anything else raises (`None`). */
  function ParseInt(s: string): (r: Option<int>)
  {
    ParseSigned(Strip(s))
  }

  /** `int` on an already stripped string: an optional sign, then digits. */
  function ParseSigned(t: string): (r: Option<int>)
    ensures r.Some? ==> |t| > 0
  {
    if |t| == 0 then None
    else if t[0] == '-' then
      match ParseDigits(t[1..])
      case Some(v) => Some(-v)
      case None => None
    else if t[0] == '+' then ParseDigits(t[1..])
    else ParseDigits(t)
  }

  /** The digit part `int` accepts: digits and underscores, starting and
      ending with a digit, no two underscores adjacent. */
  predicate Grouped(d: string) {
    && |d| > 0 && IsDigit(d[0]) && IsDigit(d[|d| - 1])
    && (forall i :: 0 <= i < |d| ==> IsDigit(d[i]) || d[i] == '_')
    && (forall i :: 0 <= i < |d| - 1 ==> d[i] == '_' ==> d[i + 1] != '_')
  }

  /** `d` with its underscores removed. */
  function Ungroup(d: string): (r: string)
    ensures AllDigits(d) ==> r == d
    ensures (forall i :: 0 <= i < |d| ==> IsDigit(d[i]) || d[i] == '_') ==> AllDigits(r)
  {
    if |d| == 0 then ""
    else if d[0] == '_' then Ungroup(d[1..])
    else [d[0]] + Ungroup(d[1..])
  }

  /** The value of the digit part of an integer literal; anything else is `None`. */
  function ParseDigits(d: string): (r: Option<int>)
    ensures r.Some? <==> Grouped(d)
    ensures |d| > 0 && AllDigits(d) ==> r == Some(DigitsValue(d) as int)
    ensures r.Some? ==> r.value >= 0
  {
    if Grouped(d) then Some(DigitsValue(Ungroup(d)) as int) else None
  }

  /** An underscore between two runs of digits is ignored: `int("1_000") == 1000`. */
  lemma {:induction false} ParseDigitsGrouped(a: string, b: string)
    requires |a| > 0 && AllDigits(a) && |b| > 0 && AllDigits(b)
    ensures ParseDigits(a + "_" + b) == Some(DigitsValue(a + b) as int)
  {
    var d := a + "_" + b;
    assert Grouped(d) by {
      forall i | 0 <= i < |d|
        ensures IsDigit(d[i]) || d[i] == '_'
        ensures i < |d| - 1 && d[i] == '_' ==> i == |a|
      {
        if i < |a| {
          assert d[i] == a[i];
        } else if i > |a| {
          assert d[i] == b[i - |a| - 1];
        }
      }
      assert d[|a| + 1] == b[0];
    }
    assert Ungroup(d) == a + b by {
      assert d == a + ("_" + b);
      UngroupAppend(a, "_" + b);
      assert ("_" + b)[1..] == b;
    }
  }

  lemma {:induction false} UngroupAppend(a: string, b: string)
    requires AllDigits(a)
    ensures Ungroup(a + b) == a + Ungroup(b)
    decreases |a|
  {
    if |a| == 0 {
      assert a + b == b;
    } else {
      assert a[0] != '_' && AllDigits(a[1..]);
      ConsAppend(a, b);
      ConsAppend(a, Ungroup(b));
      UngroupCons(a[0], a[1..] + b);
      UngroupAppend(a[1..], b);
    }
  }

  lemma UngroupCons(c: char, s: string)
    requires c != '_'
    ensures Ungroup([c] + s) == [c] + Ungroup(s)
  {
    assert ([c] + s)[1..] == s;
  }

  lemma {:induction false} NatToStringValue(n: nat)
    ensures DigitsValue(NatToString(n)) == n
  {
    if n >= 10 {
      NatToStringValue(n / 10);
      var s := NatToString(n);
      assert s[..|s| - 1] == NatToString(n / 10);
    }
  }

  /** `int(str(n)) == n`. */
  lemma ParseIntOfIntToString(n: int)
    ensures ParseInt(IntToString(n)) == Some(n)
  {
    if n < 0 {
      var m: nat := -n;
      assert IntToString(n) == "-" + NatToString(m);
      ParseIntNegative(m);
    } else {
      ParseIntNat(n);
    }
  }

  lemma ParseIntNat(m: nat)
    ensures ParseInt(NatToString(m)) == Some(m)
  {
    var d := NatToString(m);
    assert IsDigit(d[0]) && IsDigit(d[|d| - 1]);
    StripTrimmed(d);
    ParseSignedNat(m);
  }

  lemma ParseIntNegative(m: nat)
    ensures ParseInt("-" + NatToString(m)) == Some(-(m as int))
  {
    var d := NatToString(m);
    var s := "-" + d;
    assert s[|s| - 1] == d[|d| - 1];
    assert IsDigit(d[|d| - 1]);
    StripTrimmed(s);
    ParseSignedNegative(m);
  }

  lemma ParseSignedNat(m: nat)
    ensures ParseSigned(NatToString(m)) == Some(m)
  {
    var d := NatToString(m);
    NatToStringValue(m);
    assert IsDigit(d[0]);
  }

  lemma ParseSignedNegative(m: nat)
    ensures ParseSigned("-" + NatToString(m)) == Some(-(m as int))
  {
    var d := NatToString(m);
    NatToStringValue(m);
    assert ("-" + d)[1..] == d;
  }

  /** `str` is injective on integers. */
  lemma IntToStringInjective(a: int, b: int)
    ensures IntToString(a) == IntToString(b) <==> a == b
  {
    ParseIntOfIntToString(a);
    ParseIntOfIntToString(b);
  }

  // ---------------------------------------------------------------------
  // Subsequences
  // ---------------------------------------------------------------------

  /** `a` is `b` with some elements dropped and the rest kept in order. */
  predicate IsSubsequence<T(==)>(a: seq<T>, b: seq<T>)
    decreases |b|
  {
    if |a| == 0 then true
    else if |b| == 0 then false
    else if a[0] == b[0] then IsSubsequence(a[1..], b[1..])
    else IsSubsequence(a, b[1..])
  }

  lemma {:induction false} SubsequenceRefl<T>(a: seq<T>)
    ensures IsSubsequence(a, a)
    decreases |a|
  {
    if |a| > 0 {
      SubsequenceRefl(a[1..]);
    }
  }

  /** Prepending an element to the longer sequence keeps a subsequence one. */
  lemma {:induction false} SkipHead<T>(head: T, a: seq<T>, b: seq<T>)
    requires IsSubsequence(a, b)
    ensures IsSubsequence(a, [head] + b)
    decreases |b|, 1
  {
    assert ([head] + b)[1..] == b;
    if |a| > 0 && a[0] == head {
      SubsequenceDropFirst(a, b);
    }
  }

  /** Dropping the first element of the shorter sequence keeps a subsequence one. */
  lemma {:induction false} SubsequenceDropFirst<T>(a: seq<T>, b: seq<T>)
    requires |a| > 0 && IsSubsequence(a, b)
    ensures IsSubsequence(a[1..], b)
    decreases |b|, 0
  {
    if a[0] == b[0] {
      SkipHead(b[0], a[1..], b[1..]);
    } else {
      SubsequenceDropFirst(a, b[1..]);
      SkipHead(b[0], a[1..], b[1..]);
    }
    assert [b[0]] + b[1..] == b;
  }
}
