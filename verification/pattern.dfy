/**
 * The fragment of Python's `re` that the ALL, ANY and LITERAL rules use.
 *
 * Those rules only ever search for `\b<escaped text>\b`, where the escaped
 * text is built by `re.escape` and, for ALL/ANY tokens, by turning each
 * escaped space into `\s+`. A pattern of that shape is a sequence of literal
 * characters and one-or-more-whitespace gaps, so no general regex engine is
 * needed: `ParsePattern` reads such a pattern string and `FoundBounded` says
 * when `re.search` finds it between two word boundaries.
 */
module Pattern {
  import opened Wrappers
  import opened Strings

  /** Characters `re.escape` prefixes with a backslash (Python 3.7 and later). */
  predicate IsEscaped(c: char) {
    c in "()[]{}?*+-|^$\\.&~# \t\n\r\U{B}\U{C}"
  }

  /** Characters that mean something other than themselves when unescaped. */
  predicate IsMeta(c: char) {
    c in ".^$*+?{}[]\\|()"
  }

  function EscapeChar(c: char): string {
    if IsEscaped(c) then ['\\', c] else [c]
  }

  /** `re.escape(s)`. */
  function Escape(s: string): string {
    if |s| == 0 then "" else EscapeChar(s[0]) + Escape(s[1..])
  }

  /** One element of a pattern: a literal character, or `\s+`. */
  datatype PatElem = Lit(c: char) | Spaces

  /** Reads a pattern string of the literal fragment: `\s+` is a whitespace
      gap, a backslash before a non-alphanumeric character makes it literal,
      and any other non-meta character stands for itself. Anything else
      (classes, quantifiers, anchors, other escapes) is outside the fragment
      and yields `None`. */
  function ParsePattern(p: string): Option<seq<PatElem>>
    decreases |p|
  {
    if |p| == 0 then Some([])
    else if p[0] == '\\' then
      if |p| < 2 then None
      else if p[1] == 's' then
        if |p| >= 3 && p[2] == '+' then
          var rest :- ParsePattern(p[3..]);
          Some([Spaces] + rest)
        else None
      else if IsAlnum(p[1]) then None
      else
        var rest :- ParsePattern(p[2..]);
        Some([Lit(p[1])] + rest)
    else if IsMeta(p[0]) then None
    else
      var rest :- ParsePattern(p[1..]);
      Some([Lit(p[0])] + rest)
  }

  // ---------------------------------------------------------------------
  // Meaning of a pattern
  // ---------------------------------------------------------------------

  predicate IsWordAt(text: string, i: int) {
    0 <= i < |text| && IsWordChar(text[i])
  }

  /** `\b` at index `i`: the characters on either side differ in being word characters. */
  predicate Boundary(text: string, i: int) {
    IsWordAt(text, i - 1) != IsWordAt(text, i)
  }

  /** The pattern matches the whole of `t` (literals compared case-insensitively
      when `ignoreCase`, each gap taking at least one whitespace character). */
  predicate SpanMatches(p: seq<PatElem>, t: string, ignoreCase: bool)
    decreases |p|
  {
    if |p| == 0 then |t| == 0
    else match p[0]
      case Lit(c) => |t| > 0 && CharEq(t[0], c, ignoreCase) && SpanMatches(p[1..], t[1..], ignoreCase)
      case Spaces =>
        exists k | 1 <= k <= |t| :: AllSpace(t[..k]) && SpanMatches(p[1..], t[k..], ignoreCase)
  }

  /** `re.search(r"\b" + pattern + r"\b", text)` finds a match. */
  predicate FoundBounded(p: seq<PatElem>, text: string, ignoreCase: bool) {
    exists i, j | 0 <= i <= j <= |text| ::
      Boundary(text, i) && Boundary(text, j) && SpanMatches(p, text[i..j], ignoreCase)
  }

  // ---------------------------------------------------------------------
  // The patterns the matching rules build
  // ---------------------------------------------------------------------

  /** The elements a literal string stands for. */
  function LiteralElems(s: string): (r: seq<PatElem>)
    ensures |r| == |s|
    ensures forall i :: 0 <= i < |s| ==> r[i] == Lit(s[i])
  {
    seq(|s|, i requires 0 <= i < |s| => Lit(s[i]))
  }

  /** The elements a normalised token stands for: each space is a whitespace gap. */
  function TokenElems(s: string): (r: seq<PatElem>)
    ensures |r| == |s|
    ensures forall i :: 0 <= i < |s| ==> r[i] == (if s[i] == ' ' then Spaces else Lit(s[i]))
  {
    seq(|s|, i requires 0 <= i < |s| => if s[i] == ' ' then Spaces else Lit(s[i]))
  }

  /** `re.escape(t).replace("\\ ", "\\s+")`, the pattern text of one ALL/ANY token. */
  function TokenPattern(t: string): string {
    ReplaceAll(Escape(t), "\\ ", "\\s+", false)
  }

  /** The token pattern written out character by character. */
  function RenderToken(t: string): string {
    if |t| == 0 then ""
    else (if t[0] == ' ' then "\\s+" else EscapeChar(t[0])) + RenderToken(t[1..])
  }

  lemma EscapeNoLeadingSpace(s: string)
    ensures |Escape(s)| > 0 ==> Escape(s)[0] != ' '
  {
  }

  /** One step of the escaped-space replacement over an escaped character
      followed by escaped text that does not start with a space. */
  lemma {:induction false} ReplaceStep(c: char, e: string)
    requires |e| > 0 ==> e[0] != ' '
    ensures ReplaceAll(EscapeChar(c) + e, "\\ ", "\\s+", false)
         == (if c == ' ' then "\\s+" else EscapeChar(c)) + ReplaceAll(e, "\\ ", "\\s+", false)
  {
    if c == ' ' {
      assert EscapeChar(c) == "\\ ";
      ReplaceSpaceStep(e);
    } else if IsEscaped(c) {
      assert EscapeChar(c) == ['\\', c];
      ReplaceEscapedStep(c, e);
    } else {
      assert EscapeChar(c) == [c];
      ReplacePlainStep(c, e);
    }
  }

  lemma {:induction false} ReplaceEscapedStep(c: char, e: string)
    requires c != ' '
    requires |e| > 0 ==> e[0] != ' '
    ensures ReplaceAll(['\\', c] + e, "\\ ", "\\s+", false) == ['\\', c] + ReplaceAll(e, "\\ ", "\\s+", false)
  {
    var a := ReplaceAll(['\\', c] + e, "\\ ", "\\s+", false);
    var b := ReplaceAll([c] + e, "\\ ", "\\s+", false);
    var tail := ReplaceAll(e, "\\ ", "\\s+", false);
    ReplaceBackslashStep(c, e);
    assert a == ['\\'] + b;
    ReplacePlainStep(c, e);
    assert b == [c] + tail;
    assert ['\\'] + ([c] + tail) == ['\\', c] + tail;
  }

  lemma {:induction false} ReplaceSpaceStep(e: string)
    ensures ReplaceAll("\\ " + e, "\\ ", "\\s+", false) == "\\s+" + ReplaceAll(e, "\\ ", "\\s+", false)
  {
    var s := "\\ " + e;
    assert MatchesAt(s, 0, "\\ ", false);
    assert s[2..] == e;
  }

  lemma {:induction false} ReplaceBackslashStep(c: char, e: string)
    requires c != ' '
    ensures ReplaceAll(['\\', c] + e, "\\ ", "\\s+", false) == ['\\'] + ReplaceAll([c] + e, "\\ ", "\\s+", false)
  {
    var s := ['\\', c] + e;
    assert s[1] == c && "\\ "[1] == ' ';
    assert !MatchesAt(s, 0, "\\ ", false);
    assert s[1..] == [c] + e;
  }

  lemma {:induction false} ReplacePlainStep(c: char, e: string)
    requires |e| > 0 ==> e[0] != ' '
    ensures ReplaceAll([c] + e, "\\ ", "\\s+", false) == [c] + ReplaceAll(e, "\\ ", "\\s+", false)
  {
    var s := [c] + e;
    assert |e| > 0 ==> s[1] == e[0];
    assert "\\ "[1] == ' ';
    assert !MatchesAt(s, 0, "\\ ", false);
    assert s[1..] == e;
  }

  /** The replacement of escaped spaces, read one source character at a time. */
  lemma {:induction false} TokenPatternIsRender(t: string)
    ensures TokenPattern(t) == RenderToken(t)
    decreases |t|
  {
    if |t| > 0 {
      TokenPatternIsRender(t[1..]);
      EscapeNoLeadingSpace(t[1..]);
      assert Escape(t) == EscapeChar(t[0]) + Escape(t[1..]);
      ReplaceStep(t[0], Escape(t[1..]));
    }
  }

  lemma ParsePatternLit(c: char, rest: string)
    requires !IsMeta(c) && c != '\\'
    ensures ParsePattern([c] + rest) == (var r :- ParsePattern(rest); Some([Lit(c)] + r))
  {
    assert ([c] + rest)[1..] == rest;
  }

  lemma ParsePatternEscaped(c: char, rest: string)
    requires IsEscaped(c)
    ensures ParsePattern(['\\', c] + rest) == (var r :- ParsePattern(rest); Some([Lit(c)] + r))
  {
    assert (['\\', c] + rest)[2..] == rest;
  }

  /** Every ALL/ANY token pattern lies in the literal fragment, and reads back
      as the token's characters with each space turned into a whitespace gap. */
  lemma {:induction false} TokenPatternParses(t: string)
    ensures ParsePattern(TokenPattern(t)) == Some(TokenElems(t))
  {
    TokenPatternIsRender(t);
    RenderTokenParses(t);
  }

  lemma {:induction false} RenderTokenParses(t: string)
    ensures ParsePattern(RenderToken(t)) == Some(TokenElems(t))
    decreases |t|
  {
    if |t| > 0 {
      RenderTokenParses(t[1..]);
      var rest := RenderToken(t[1..]);
      var c := t[0];
      if c == ' ' {
        assert ("\\s+" + rest)[3..] == rest;
      } else if IsEscaped(c) {
        ParsePatternEscaped(c, rest);
      } else {
        ParsePatternLit(c, rest);
      }
      assert TokenElems(t) == [TokenElems(t)[0]] + TokenElems(t[1..]);
    }
  }

  /** `re.escape` of any string lies in the literal fragment and reads back as that string. */
  lemma {:induction false} EscapeParses(s: string)
    ensures ParsePattern(Escape(s)) == Some(LiteralElems(s))
    decreases |s|
  {
    if |s| > 0 {
      EscapeParses(s[1..]);
      var c := s[0];
      if IsEscaped(c) {
        ParsePatternEscaped(c, Escape(s[1..]));
      } else {
        ParsePatternLit(c, Escape(s[1..]));
      }
      assert LiteralElems(s) == [Lit(c)] + LiteralElems(s[1..]);
    }
  }

  /** A token pattern contains no whitespace when the token's only whitespace is plain spaces. */
  lemma {:induction false} RenderTokenNoSpace(t: string)
    requires forall i :: 0 <= i < |t| && IsSpace(t[i]) ==> t[i] == ' '
    ensures forall i :: 0 <= i < |RenderToken(t)| ==> !IsSpace(RenderToken(t)[i])
    decreases |t|
  {
    if |t| > 0 {
      RenderTokenNoSpace(t[1..]);
      var head := if t[0] == ' ' then "\\s+" else EscapeChar(t[0]);
      assert forall i :: 0 <= i < |head| ==> !IsSpace(head[i]);
      assert RenderToken(t) == head + RenderToken(t[1..]);
      NoSpaceConcat(head, RenderToken(t[1..]));
    }
  }
}
