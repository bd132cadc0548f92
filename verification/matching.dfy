/**
 * The rule-matching engine of `documents/matching.py`: whether a
 * correspondent, document type, tag or storage path applies to a document,
 * judged from the document's text by the rule's matching algorithm, and the
 * selection of every entity whose rule matches or whose id the optional
 * classifier predicted.
 */
module Matching {
  import opened Wrappers
  import opened Strings
  import opened Pattern

  /** The matching algorithms of a rule; any other stored value is `Unsupported`. */
  datatype Algorithm =
    | MatchNone
    | MatchAny
    | MatchAll
    | MatchLiteral
    | MatchRegex
    | MatchFuzzy
    | MatchAuto
    | Unsupported(code: int)

  /** A rule-bearing entity (correspondent, document type, tag or storage path). */
  datatype MatchingModel = MatchingModel(
    pk: int,
    name: string,
    matchText: string,
    algorithm: Algorithm,
    isInsensitive: bool
  )

  /** What the engine calls but does not define: Python's `re.search` on a
      user-written pattern (`None` when the pattern does not compile) and
      rapidfuzz's `partial_ratio` (0..100). */
  datatype Engines = Engines(
    regexSearch: (string, string, bool) -> Option<bool>,
    partialRatio: (string, string) -> real
  )

  /** `NotImplementedError("Unsupported matching algorithm")`. */
  datatype MatchError = UnsupportedAlgorithm

  const FuzzyThreshold: real := 90.0

  // ---------------------------------------------------------------------
  // Tokenising the match string (_split_match)
  // ---------------------------------------------------------------------

  /** Index of the first double quote in `s`. */
  function QuoteIndex(s: string): (r: Option<nat>)
    ensures r.Some? ==> r.value < |s| && s[r.value] == '"' && Excludes(s[..r.value], '"')
    ensures r.None? ==> Excludes(s, '"')
  {
    if |s| == 0 then None
    else if s[0] == '"' then Some(0)
    else match QuoteIndex(s[1..])
      case None => None
      case Some(i) =>
        assert s[..i + 1] == [s[0]] + s[1..][..i];
        Some(i + 1)
  }

  /** Length of the run of non-whitespace characters that starts `s`. */
  function NonSpaceRun(s: string): (n: nat)
    ensures n <= |s|
    ensures forall k :: 0 <= k < n ==> !IsSpace(s[k])
    ensures n < |s| ==> IsSpace(s[n])
  {
    if |s| == 0 || IsSpace(s[0]) then 0 else 1 + NonSpaceRun(s[1..])
  }

  /** `t` came from a `"…"` group of `s`: a non-empty, quote-free text that `s` holds between quotes. */
  predicate QuotedIn(s: string, t: string) {
    |t| > 0 && Excludes(t, '"') && Occurs(s, "\"" + t + "\"", false)
  }

  /** `t` came from a `\S+` run of `s`. */
  predicate BareIn(s: string, t: string) {
    |t| > 0 && (forall i :: 0 <= i < |t| ==> !IsSpace(t[i])) && Occurs(s, t, false)
  }

  lemma OccursIn(s: string, i: nat, t: string)
    requires i + |t| <= |s| && s[i..i + |t|] == t
    ensures Occurs(s, t, false)
  {
    assert MatchesAt(s, i, t, false) by {
      forall k | 0 <= k < |t| ensures CharEq(s[i + k], t[k], false) {
        assert s[i + k] == s[i..i + |t|][k];
      }
    }
  }

  /** `re.findall(r'"([^"]+)"|(\S+)', s)`, each found pair reduced to
      `t[0] or t[1]`: scanning left to right, a quote followed by at least one
      non-quote character and a closing quote yields the text between the
      quotes; otherwise a maximal non-whitespace run (which may begin with a
      stray quote) is taken whole; whitespace between terms is skipped. */
  function FindTerms(s: string): (r: seq<string>)
    ensures forall k :: 0 <= k < |r| ==> QuotedIn(s, r[k]) || BareIn(s, r[k])
    decreases |s|
  {
    if |s| == 0 then []
    else if s[0] == '"' && QuoteIndex(s[1..]).Some? && QuoteIndex(s[1..]).value > 0 then
      var q := QuoteIndex(s[1..]).value;
      var t := s[1..q + 1];
      assert t == s[1..][..q];
      assert s[0..q + 2] == "\"" + t + "\"";
      OccursIn(s, 0, "\"" + t + "\"");
      var rest := FindTerms(s[q + 2..]);
      SuffixTerms(s, q + 2, rest);
      [t] + rest
    else if IsSpace(s[0]) then
      var rest := FindTerms(s[1..]);
      SuffixTerms(s, 1, rest);
      rest
    else
      var n := NonSpaceRun(s);
      var t := s[..n];
      assert s[0..n] == t;
      OccursIn(s, 0, t);
      var rest := FindTerms(s[n..]);
      SuffixTerms(s, n, rest);
      [t] + rest
  }

  /** Terms found in a suffix of `s` were found in `s`. */
  lemma SuffixTerms(s: string, d: nat, terms: seq<string>)
    requires d <= |s|
    requires forall k :: 0 <= k < |terms| ==> QuotedIn(s[d..], terms[k]) || BareIn(s[d..], terms[k])
    ensures forall k :: 0 <= k < |terms| ==> QuotedIn(s, terms[k]) || BareIn(s, terms[k])
  {
    forall k | 0 <= k < |terms|
      ensures QuotedIn(s, terms[k]) || BareIn(s, terms[k])
    {
      if QuotedIn(s[d..], terms[k]) {
        OccursTail(s, d, "\"" + terms[k] + "\"", false);
      } else {
        OccursTail(s, d, terms[k], false);
      }
    }
  }

  /** `normspace(" ", t.strip())`: trimmed, with each inner whitespace run made one space. */
  function NormalizeTerm(t: string): string {
    CollapseWs(Strip(t))
  }

  /** `_split_match`: every term, normalised, escaped, with each escaped space widened to `\s+`. */
  function SplitMatch(text: string): (r: seq<string>)
    ensures |r| == |FindTerms(text)|
  {
    var terms := FindTerms(text);
    seq(|terms|, k requires 0 <= k < |terms| => TokenPattern(NormalizeTerm(terms[k])))
  }

  /** A normalised term has no whitespace at either end, no whitespace other
      than single spaces, and the term's non-whitespace characters in order. */
  lemma {:induction false} NormalizeTermShape(t: string)
    ensures SingleSpaced(NormalizeTerm(t))
    ensures NonSpace(NormalizeTerm(t)) == NonSpace(t)
    ensures var n := NormalizeTerm(t); |n| > 0 ==> !IsSpace(n[0]) && !IsSpace(n[|n| - 1])
  {
    var st := Strip(t);
    CollapseWsShape(st);
    CollapseWsLast(st);
    StripNonSpace(t);
  }

  /** A normalised term is the term's words joined by single spaces. */
  lemma NormalizeTermWords(t: string)
    ensures NormalizeTerm(t) == Join(Words(t), " ")
  {
    var st := Strip(t);
    NormalizeTermShape(t);
    StripTrimmed(CollapseWs(st));
    StripCollapseWords(st);
    WordsOfStrip(t);
  }

  /** Every token of `_split_match` is a pattern of the literal fragment that
      stands for its normalised term, with each space a whitespace gap; no
      token contains a whitespace character. */
  lemma SplitMatchTokens(text: string)
    ensures forall k :: 0 <= k < |SplitMatch(text)| ==>
      ParsePattern(SplitMatch(text)[k]) == Some(TokenElems(NormalizeTerm(FindTerms(text)[k])))
    ensures forall k, i :: 0 <= k < |SplitMatch(text)| && 0 <= i < |SplitMatch(text)[k]| ==>
      !IsSpace(SplitMatch(text)[k][i])
  {
    var terms := FindTerms(text);
    forall k | 0 <= k < |terms|
      ensures ParsePattern(SplitMatch(text)[k]) == Some(TokenElems(NormalizeTerm(terms[k])))
      ensures forall i :: 0 <= i < |SplitMatch(text)[k]| ==> !IsSpace(SplitMatch(text)[k][i])
    {
      var n := NormalizeTerm(terms[k]);
      TokenPatternParses(n);
      TokenPatternIsRender(n);
      NormalizeTermShape(terms[k]);
      RenderTokenNoSpace(n);
    }
  }

  /** Whitespace between terms is skipped. */
  lemma {:induction false} TermsSpace(sp: string, rest: string)
    requires |sp| > 0 && AllSpace(sp)
    ensures FindTerms(sp + rest) == FindTerms(rest)
    decreases |sp|
  {
    assert (sp + rest)[1..] == sp[1..] + rest;
    if |sp| > 1 {
      TermsSpace(sp[1..], rest);
    }
  }

  /** An unquoted word ending at whitespace (or at the end) is one term. */
  lemma {:induction false} TermsWord(w: string, rest: string)
    requires |w| > 0 && w[0] != '"'
    requires forall i :: 0 <= i < |w| ==> !IsSpace(w[i])
    requires |rest| > 0 ==> IsSpace(rest[0])
    ensures FindTerms(w + rest) == [w] + FindTerms(rest)
  {
    var s := w + rest;
    NonSpaceRunPrefix(w, rest);
    assert s[..|w|] == w && s[|w|..] == rest;
  }

  lemma {:induction false} NonSpaceRunPrefix(w: string, rest: string)
    requires forall i :: 0 <= i < |w| ==> !IsSpace(w[i])
    requires |rest| > 0 ==> IsSpace(rest[0])
    ensures NonSpaceRun(w + rest) == |w|
    decreases |w|
  {
    if |w| > 0 {
      assert (w + rest)[1..] == w[1..] + rest;
      NonSpaceRunPrefix(w[1..], rest);
    } else {
      assert w + rest == rest;
    }
  }

  /** A quoted phrase is one term, whatever whitespace it holds. */
  lemma {:induction false} TermsQuoted(t: string, rest: string)
    requires |t| > 0 && Excludes(t, '"')
    ensures FindTerms("\"" + t + "\"" + rest) == [t] + FindTerms(rest)
  {
    var s := "\"" + t + "\"" + rest;
    QuoteIndexAfter(t, rest);
    assert s[1..] == t + "\"" + rest;
    assert s[1..|t| + 1] == t;
    assert s[|t| + 2..] == rest;
  }

  /** A quote with no closing quote after it, or an empty pair `""`, is not
      a quoted group: the whole non-whitespace run, quotes included, is one term. */
  lemma TermsStrayQuote(s: string)
    requires |s| > 0 && s[0] == '"'
    requires QuoteIndex(s[1..]).None? || QuoteIndex(s[1..]) == Some(0)
    ensures NonSpaceRun(s) > 0
    ensures FindTerms(s) == [s[..NonSpaceRun(s)]] + FindTerms(s[NonSpaceRun(s)..])
  {
  }

  /** An unclosed quote stays part of its word: `"ab` is the one term `"ab`. */
  lemma StrayQuoteOpen()
    ensures FindTerms("\"ab") == ["\"ab"]
  {
    var a := "\"ab";
    assert a[1..] == "ab";
    assert QuoteIndex("ab") == None;
    TermsStrayQuote(a);
    NonSpaceRunPrefix(a, "");
    assert a + "" == a;
    assert a[..3] == a && a[3..] == "";
  }

  /** An empty pair of quotes is no group: `"" x` gives the terms `""` and `x`. */
  lemma StrayQuoteEmptyPair()
    ensures FindTerms("\"\" x") == ["\"\"", "x"]
  {
    var b := "\"\" x";
    assert b[1..] == "\" x";
    assert QuoteIndex("\" x") == Some(0);
    TermsStrayQuote(b);
    NonSpaceRunPrefix("\"\"", " x");
    assert "\"\"" + " x" == b;
    assert b[..2] == "\"\"" && b[2..] == " x";
    TermsSpace(" ", "x");
    TermsWord("x", "");
    assert " " + "x" == " x" && "x" + "" == "x";
  }

  lemma {:induction false} QuoteIndexAfter(t: string, rest: string)
    requires Excludes(t, '"')
    ensures QuoteIndex(t + "\"" + rest) == Some(|t|)
    decreases |t|
  {
    if |t| > 0 {
      assert (t + "\"" + rest)[1..] == t[1..] + "\"" + rest;
      QuoteIndexAfter(t[1..], rest);
    }
  }

  /** Escaping a text without spaces is the whole token pattern. */
  lemma {:induction false} RenderTokenNoSpaceIsEscape(t: string)
    requires Excludes(t, ' ')
    ensures RenderToken(t) == Escape(t)
    decreases |t|
  {
    if |t| > 0 {
      RenderTokenNoSpaceIsEscape(t[1..]);
    }
  }

  /** A single word without whitespace or quotes is one term, its own normal form. */
  lemma {:induction false} SingleWordSplit(w: string)
    requires |w| > 0 && Excludes(w, '"')
    requires forall i :: 0 <= i < |w| ==> !IsSpace(w[i])
    ensures SplitMatch(w) == [Escape(w)]
  {
    SingleWordTerms(w);
    SingleWordNormal(w);
    TokenPatternIsRender(w);
    RenderTokenNoSpaceIsEscape(w);
    assert SplitMatch(w)[0] == TokenPattern(NormalizeTerm(w));
  }

  lemma {:induction false} SingleWordTerms(w: string)
    requires |w| > 0 && w[0] != '"'
    requires forall i :: 0 <= i < |w| ==> !IsSpace(w[i])
    ensures FindTerms(w) == [w]
  {
    NonSpaceRunAll(w);
    assert w[..|w|] == w;
    assert FindTerms(w[|w|..]) == [];
  }

  lemma {:induction false} NonSpaceRunAll(w: string)
    requires forall i :: 0 <= i < |w| ==> !IsSpace(w[i])
    ensures NonSpaceRun(w) == |w|
    decreases |w|
  {
    if |w| > 0 {
      NonSpaceRunAll(w[1..]);
    }
  }

  lemma {:induction false} SingleWordNormal(w: string)
    requires |w| > 0
    requires forall i :: 0 <= i < |w| ==> !IsSpace(w[i])
    ensures NormalizeTerm(w) == w
  {
    assert StripLeft(w) == w;
    assert StripRight(w) == w;
    assert Strip(w) == w;
    CollapseWsNoSpace(w);
  }

  lemma {:induction false} CollapseWsNoSpace(s: string)
    requires forall i :: 0 <= i < |s| ==> !IsSpace(s[i])
    ensures CollapseWs(s) == s
    decreases |s|
  {
    if |s| > 0 {
      CollapseWsNoSpace(s[1..]);
    }
  }

  // ---------------------------------------------------------------------
  // matches()
  // ---------------------------------------------------------------------

  /** `re.search(rf"\b{token}\b", text)` for a token pattern. */
  predicate TokenFound(token: string, text: string, ignoreCase: bool) {
    match ParsePattern(token)
    case Some(p) => FoundBounded(p, text, ignoreCase)
    case None => false
  }

  /** The ALL loop: false at the first token not found, true when none is missing. */
  function AllFound(tokens: seq<string>, text: string, ignoreCase: bool): (r: bool)
    ensures r <==> forall k :: 0 <= k < |tokens| ==> TokenFound(tokens[k], text, ignoreCase)
  {
    if |tokens| == 0 then true
    else if !TokenFound(tokens[0], text, ignoreCase) then false
    else
      var r := AllFound(tokens[1..], text, ignoreCase);
      assert forall k :: 1 <= k < |tokens| ==> tokens[k] == tokens[1..][k - 1];
      r
  }

  /** The ANY loop: the index of the first token found, at which the loop returns. */
  function FirstFound(tokens: seq<string>, text: string, ignoreCase: bool): (r: Option<nat>)
    ensures r.Some? ==> r.value < |tokens| && TokenFound(tokens[r.value], text, ignoreCase)
    ensures r.Some? ==> forall k :: 0 <= k < r.value ==> !TokenFound(tokens[k], text, ignoreCase)
    ensures r.None? <==> forall k :: 0 <= k < |tokens| ==> !TokenFound(tokens[k], text, ignoreCase)
  {
    if |tokens| == 0 then None
    else if TokenFound(tokens[0], text, ignoreCase) then Some(0)
    else
      var r := FirstFound(tokens[1..], text, ignoreCase);
      assert forall k :: 1 <= k < |tokens| ==> tokens[k] == tokens[1..][k - 1];
      match r
      case None => None
      case Some(i) => Some(i + 1)
  }

  /** `re.sub(r"[^\w\s]", "", s)`: every word character and whitespace
      character is kept, in order, and nothing else. */
  function StripPunctuation(s: string): (r: string)
    ensures |r| <= |s|
    ensures forall i :: 0 <= i < |r| ==> IsWordChar(r[i]) || IsSpace(r[i])
    ensures (forall i :: 0 <= i < |s| ==> IsWordChar(s[i]) || IsSpace(s[i])) ==> r == s
    ensures IsSubsequence(r, s)
  {
    if |s| == 0 then ""
    else
      var rest := StripPunctuation(s[1..]);
      assert s == [s[0]] + s[1..];
      if IsWordChar(s[0]) || IsSpace(s[0]) then
        assert ([s[0]] + rest)[1..] == rest;
        [s[0]] + rest
      else
        SkipHead(s[0], rest, s[1..]);
        rest
  }

  /** Every occurrence of a word or whitespace character survives. */
  lemma {:induction false} StripPunctuationKeeps(s: string)
    ensures forall c :: IsWordChar(c) || IsSpace(c) ==> multiset(StripPunctuation(s))[c] == multiset(s)[c]
    decreases |s|
  {
    if |s| > 0 {
      StripPunctuationKeeps(s[1..]);
      assert s == [s[0]] + s[1..];
    }
  }

  /** The text FUZZY compares: punctuation removed, lower-cased for case-insensitive rules. */
  function FuzzyText(s: string, ignoreCase: bool): string {
    var t := StripPunctuation(s);
    if ignoreCase then LowerString(t) else t
  }

  /** `matches(matching_model, document)`. */
  function Matches(m: MatchingModel, content: string, e: Engines): (r: Result<bool, MatchError>)
    ensures AllSpace(m.matchText) ==> r == Ok(false)
    ensures !AllSpace(m.matchText) ==> (r.Err? <==> m.algorithm.Unsupported?)
    ensures m.algorithm == MatchNone || m.algorithm == MatchAuto ==> r == Ok(false)
    ensures !AllSpace(m.matchText) && m.algorithm == MatchAll ==>
      (r == Ok(true) <==> forall k :: 0 <= k < |SplitMatch(m.matchText)| ==>
                             TokenFound(SplitMatch(m.matchText)[k], content, m.isInsensitive))
    ensures !AllSpace(m.matchText) && m.algorithm == MatchAny ==>
      (r == Ok(true) <==> exists k :: 0 <= k < |SplitMatch(m.matchText)| &&
                             TokenFound(SplitMatch(m.matchText)[k], content, m.isInsensitive))
    ensures !AllSpace(m.matchText) && m.algorithm == MatchLiteral ==>
      r == Ok(FoundBounded(LiteralElems(m.matchText), content, m.isInsensitive))
    ensures !AllSpace(m.matchText) && m.algorithm == MatchRegex ==>
      r == Ok(e.regexSearch(m.matchText, content, m.isInsensitive) == Some(true))
    ensures !AllSpace(m.matchText) && m.algorithm == MatchFuzzy ==>
      r == Ok(e.partialRatio(FuzzyText(m.matchText, m.isInsensitive), FuzzyText(content, m.isInsensitive))
              >= FuzzyThreshold)
  {
    StripEmptyIffAllSpace(m.matchText);
    var ci := m.isInsensitive;
    if Strip(m.matchText) == "" then Ok(false)
    else match m.algorithm
      case MatchNone => Ok(false)
      case MatchAll => Ok(AllFound(SplitMatch(m.matchText), content, ci))
      case MatchAny => Ok(FirstFound(SplitMatch(m.matchText), content, ci).Some?)
      case MatchLiteral =>
        EscapeParses(m.matchText);
        Ok(TokenFound(Escape(m.matchText), content, ci))
      case MatchRegex =>
        (match e.regexSearch(m.matchText, content, ci)
         case None => Ok(false)
         case Some(found) => Ok(found))
      case MatchFuzzy =>
        Ok(e.partialRatio(FuzzyText(m.matchText, ci), FuzzyText(content, ci)) >= FuzzyThreshold)
      case MatchAuto => Ok(false)
      case Unsupported(_) => Err(UnsupportedAlgorithm)
  }

  /** For a single word without whitespace or quotes, ALL, ANY and LITERAL
      rules decide alike. */
  lemma {:induction false} SingleWordRulesAgree(m: MatchingModel, content: string, e: Engines)
    requires |m.matchText| > 0 && Excludes(m.matchText, '"')
    requires forall i :: 0 <= i < |m.matchText| ==> !IsSpace(m.matchText[i])
    ensures Matches(m.(algorithm := MatchAll), content, e) == Matches(m.(algorithm := MatchLiteral), content, e)
    ensures Matches(m.(algorithm := MatchAny), content, e) == Matches(m.(algorithm := MatchLiteral), content, e)
  {
    var w, ci := m.matchText, m.isInsensitive;
    assert !AllSpace(w) by {
      assert !IsSpace(w[0]);
    }
    SingleWordSplit(w);
    OneToken(Escape(w), content, ci);
    MatchesLiteral(m.(algorithm := MatchLiteral), content, e);
    MatchesAll(m.(algorithm := MatchAll), content, e);
    MatchesAny(m.(algorithm := MatchAny), content, e);
  }

  lemma {:induction false} MatchesLiteral(m: MatchingModel, content: string, e: Engines)
    requires !AllSpace(m.matchText) && m.algorithm == MatchLiteral
    ensures Matches(m, content, e) == Ok(TokenFound(Escape(m.matchText), content, m.isInsensitive))
  {
    EscapeParses(m.matchText);
  }

  lemma {:induction false} MatchesAll(m: MatchingModel, content: string, e: Engines)
    requires !AllSpace(m.matchText) && m.algorithm == MatchAll
    ensures Matches(m, content, e) == Ok(AllFound(SplitMatch(m.matchText), content, m.isInsensitive))
  {
    StripEmptyIffAllSpace(m.matchText);
  }

  lemma {:induction false} MatchesAny(m: MatchingModel, content: string, e: Engines)
    requires !AllSpace(m.matchText) && m.algorithm == MatchAny
    ensures Matches(m, content, e) == Ok(FirstFound(SplitMatch(m.matchText), content, m.isInsensitive).Some?)
  {
    StripEmptyIffAllSpace(m.matchText);
  }

  lemma OneToken(x: string, text: string, ignoreCase: bool)
    ensures AllFound([x], text, ignoreCase) == TokenFound(x, text, ignoreCase)
    ensures FirstFound([x], text, ignoreCase).Some? == TokenFound(x, text, ignoreCase)
  {
  }

  /** An ALL rule that matches makes the ANY rule of the same text match: a
      text that is not blank has at least one token, and ALL finds it. */
  lemma AllImpliesAny(m: MatchingModel, content: string, e: Engines)
    requires m.algorithm == MatchAll
    requires Matches(m, content, e) == Ok(true)
    ensures Matches(m.(algorithm := MatchAny), content, e) == Ok(true)
  {
    TermsOfNonBlank(m.matchText);
    assert TokenFound(SplitMatch(m.matchText)[0], content, m.isInsensitive);
  }

  /** A text that is not all whitespace yields at least one term. */
  lemma {:induction false} TermsOfNonBlank(s: string)
    requires !AllSpace(s)
    ensures |FindTerms(s)| > 0
    decreases |s|
  {
    if IsSpace(s[0]) {
      assert !AllSpace(s[1..]) by {
        var i :| 0 <= i < |s| && !IsSpace(s[i]);
        assert s[1..][i - 1] == s[i];
      }
      TermsOfNonBlank(s[1..]);
    }
  }

  // ---------------------------------------------------------------------
  // match_correspondents / match_document_types / match_tags / match_storage_paths
  // ---------------------------------------------------------------------

  /** The optional classifier's four predictions, from the document's content. */
  datatype Classifier = Classifier(
    predictCorrespondent: string -> Option<int>,
    predictDocumentType: string -> Option<int>,
    predictTags: string -> seq<int>,
    predictStoragePath: string -> Option<int>
  )

  /** An entity is selected when its rule matches or the classifier chose its id. */
  predicate Selected(o: MatchingModel, verdict: MatchingModel -> Result<bool, MatchError>, chosen: int -> bool) {
    verdict(o) == Ok(true) || chosen(o.pk)
  }

  /** `list(filter(lambda o: matches(o, document) or chosen(o.pk), entities))`,
      with `verdict` the rule's outcome on the document: the rule is evaluated
      first, so an unsupported algorithm raises even for an entity the
      classifier chose. */
  function SelectMatching(entities: seq<MatchingModel>, verdict: MatchingModel -> Result<bool, MatchError>, chosen: int -> bool)
    : (r: Result<seq<MatchingModel>, MatchError>)
    ensures r.Err? <==> exists k :: 0 <= k < |entities| && verdict(entities[k]).Err?
    ensures r.Ok? ==> IsSubsequence(r.value, entities)
    ensures r.Ok? ==> forall o :: o in r.value ==> o in entities && Selected(o, verdict, chosen)
    ensures r.Ok? ==> forall o :: o in entities && Selected(o, verdict, chosen) ==> o in r.value
  {
    if |entities| == 0 then Ok([])
    else
      var head := entities[0];
      var tail := entities[1..];
      assert forall k :: 1 <= k < |entities| ==> entities[k] == tail[k - 1];
      assert forall o :: o in entities ==> o == head || o in tail;
      match verdict(head)
      case Err(err) => Err(err)
      case Ok(hit) =>
        match SelectMatching(tail, verdict, chosen)
        case Err(err) => Err(err)
        case Ok(rest) =>
          if hit || chosen(head.pk) then
            assert ([head] + rest)[1..] == rest;
            Ok([head] + rest)
          else
            SkipHead(head, rest, tail);
            assert [head] + tail == entities;
            Ok(rest)
  }

  /** `classifier.predict_correspondent(content) if classifier else None`. */
  function PredictedCorrespondent(classifier: Option<Classifier>, content: string): Option<int> {
    if classifier.Some? then classifier.value.predictCorrespondent(content) else None
  }

  /** `classifier.predict_document_type(content) if classifier else None`. */
  function PredictedDocumentType(classifier: Option<Classifier>, content: string): Option<int> {
    if classifier.Some? then classifier.value.predictDocumentType(content) else None
  }

  /** `classifier.predict_storage_path(content) if classifier else None`. */
  function PredictedStoragePath(classifier: Option<Classifier>, content: string): Option<int> {
    if classifier.Some? then classifier.value.predictStoragePath(content) else None
  }

  /** `classifier.predict_tags(content) if classifier else []`. */
  function PredictedTags(classifier: Option<Classifier>, content: string): seq<int> {
    if classifier.Some? then classifier.value.predictTags(content) else []
  }

  /** The rule outcome of every entity on one document's content. */
  function RuleVerdict(content: string, e: Engines): MatchingModel -> Result<bool, MatchError> {
    o => Matches(o, content, e)
  }

  /** `match_correspondents`: in stored order, every correspondent whose rule
      matches or whose id the classifier predicted. */
  function MatchCorrespondents(correspondents: seq<MatchingModel>, content: string, classifier: Option<Classifier>, e: Engines)
    : (r: Result<seq<MatchingModel>, MatchError>)
    ensures r.Err? <==> exists k :: 0 <= k < |correspondents| && Matches(correspondents[k], content, e).Err?
    ensures r.Ok? ==> IsSubsequence(r.value, correspondents)
    ensures r.Ok? ==> forall o :: o in r.value <==> (o in correspondents &&
      (Matches(o, content, e) == Ok(true) || PredictedCorrespondent(classifier, content) == Some(o.pk)))
  {
    var pred := PredictedCorrespondent(classifier, content);
    SelectMatching(correspondents, RuleVerdict(content, e), pk => pred == Some(pk))
  }

  /** `match_document_types`. */
  function MatchDocumentTypes(documentTypes: seq<MatchingModel>, content: string, classifier: Option<Classifier>, e: Engines)
    : (r: Result<seq<MatchingModel>, MatchError>)
    ensures r.Err? <==> exists k :: 0 <= k < |documentTypes| && Matches(documentTypes[k], content, e).Err?
    ensures r.Ok? ==> IsSubsequence(r.value, documentTypes)
    ensures r.Ok? ==> forall o :: o in r.value <==> (o in documentTypes &&
      (Matches(o, content, e) == Ok(true) || PredictedDocumentType(classifier, content) == Some(o.pk)))
  {
    var pred := PredictedDocumentType(classifier, content);
    SelectMatching(documentTypes, RuleVerdict(content, e), pk => pred == Some(pk))
  }

  /** `match_storage_paths`. */
  function MatchStoragePaths(storagePaths: seq<MatchingModel>, content: string, classifier: Option<Classifier>, e: Engines)
    : (r: Result<seq<MatchingModel>, MatchError>)
    ensures r.Err? <==> exists k :: 0 <= k < |storagePaths| && Matches(storagePaths[k], content, e).Err?
    ensures r.Ok? ==> IsSubsequence(r.value, storagePaths)
    ensures r.Ok? ==> forall o :: o in r.value <==> (o in storagePaths &&
      (Matches(o, content, e) == Ok(true) || PredictedStoragePath(classifier, content) == Some(o.pk)))
  {
    var pred := PredictedStoragePath(classifier, content);
    SelectMatching(storagePaths, RuleVerdict(content, e), pk => pred == Some(pk))
  }

  /** `match_tags`: every tag whose rule matches or whose id is among the predicted ones. */
  function MatchTags(tags: seq<MatchingModel>, content: string, classifier: Option<Classifier>, e: Engines)
    : (r: Result<seq<MatchingModel>, MatchError>)
    ensures r.Err? <==> exists k :: 0 <= k < |tags| && Matches(tags[k], content, e).Err?
    ensures r.Ok? ==> IsSubsequence(r.value, tags)
    ensures r.Ok? ==> forall o :: o in r.value <==> (o in tags &&
      (Matches(o, content, e) == Ok(true) || o.pk in PredictedTags(classifier, content)))
  {
    var predicted := PredictedTags(classifier, content);
    SelectMatching(tags, RuleVerdict(content, e), pk => pk in predicted)
  }
}
