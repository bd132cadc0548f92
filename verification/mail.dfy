/**
 * The string handling of the e-mail parser in `paperless_mail/parsers.py`:
 * `strip_text`, the text `parse` assembles from the headers and bodies, the
 * metadata list of `extract_metadata`, and the inline-HTML rewrite of
 * `transform_inline_html` that neutralises script tags and `cid:` links.
 */
module MailParser {
  import opened Wrappers
  import opened Strings

  type Bytes = seq<bv8>
  type Timestamp = int

  datatype Address = Address(full: string)

  datatype Attachment = Attachment(filename: string, size: nat, contentId: string, payload: Bytes)

  /** The parts of a parsed message the parser reads; the headers in message order. */
  datatype Mail = Mail(
    subject: string,
    fromValues: Option<Address>,
    toValues: seq<Address>,
    ccValues: seq<Address>,
    bccValues: seq<Address>,
    headers: seq<(string, seq<string>)>,
    attachments: seq<Attachment>,
    date: Timestamp,
    text: string,
    html: string
  )

  datatype ParseError = Unreadable | MissingFrom

  /** `get_parsed`: the message read from the file (`None` when it could not
      be parsed), refused when it has no sender. */
  function GetParsed(read: Option<Mail>): (r: Result<Mail, ParseError>)
    ensures r.Ok? ==> read == Some(r.value) && r.value.fromValues.Some?
    ensures read.None? ==> r == Err(Unreadable)
    ensures read.Some? && read.value.fromValues.None? ==> r == Err(MissingFrom)
  {
    match read
    case None => Err(Unreadable)
    case Some(mail) => if mail.fromValues.None? then Err(MissingFrom) else Ok(mail)
  }

  // ---------------------------------------------------------------------
  // strip_text
  // ---------------------------------------------------------------------

  predicate NoNewline(s: string) {
    forall i :: 0 <= i < |s| ==> s[i] != '\n'
  }

  /** `strip_text`: `re.sub(r"\s+", " ")`, then `re.sub(r"(\n *)+", "\n")`, then
      `strip()`; the result is the words of the text joined by single spaces. */
  function StripText(text: string): (r: string)
    ensures |r| > 0 ==> !IsSpace(r[0]) && !IsSpace(r[|r| - 1])
    ensures SingleSpaced(r) && NoNewline(r)
    ensures NonSpace(r) == NonSpace(text)
    ensures r == Join(Words(text), " ")
  {
    var c := CollapseWs(text);
    CollapseWsShape(text);
    SecondSubstitutionNoOp(text);
    StripKeepsShape(c);
    StripCollapseWords(text);
    Strip(SquashNewlines(c))
  }

  /** The newline squash at the second step never finds a newline: the first step turned them all into spaces. */
  lemma {:induction false} SecondSubstitutionNoOp(text: string)
    ensures NoNewline(CollapseWs(text))
    ensures SquashNewlines(CollapseWs(text)) == CollapseWs(text)
  {
    var c := CollapseWs(text);
    CollapseWsShape(text);
    assert forall i :: 0 <= i < |c| ==> c[i] != '\n' by {
      forall i | 0 <= i < |c|
        ensures c[i] != '\n'
      {
        if c[i] == '\n' {
          assert IsSpace(c[i]);
        }
      }
    }
    SquashNewlinesNoNewline(c);
  }

  /** Stripping a single-spaced, newline-free string keeps it so, and keeps its non-whitespace characters. */
  lemma {:induction false} StripKeepsShape(s: string)
    requires SingleSpaced(s) && NoNewline(s)
    ensures SingleSpaced(Strip(s)) && NoNewline(Strip(s))
    ensures NonSpace(Strip(s)) == NonSpace(s)
  {
    var r := Strip(s);
    var i, j :| 0 <= i <= j <= |s| && r == s[i..j] && AllSpace(s[..i]) && AllSpace(s[j..]);
    SliceShape(s, i, j);
    StripNonSpace(s);
  }

  lemma {:induction false} SliceShape(s: string, i: nat, j: nat)
    requires i <= j <= |s| && SingleSpaced(s) && NoNewline(s)
    ensures SingleSpaced(s[i..j]) && NoNewline(s[i..j])
  {
    assert forall k :: 0 <= k < j - i ==> s[i..j][k] == s[i + k];
  }

  /** Normalising already normalised text changes nothing. */
  lemma {:induction false} StripTextIdempotent(text: string)
    ensures StripText(StripText(text)) == StripText(text)
  {
    var r := StripText(text);
    CollapseWsIdempotent(r);
    SquashNewlinesNoNewline(r);
    StripTrimmed(r);
  }

  // ---------------------------------------------------------------------
  // The text assembled by parse
  // ---------------------------------------------------------------------

  /** `f"{heading}: {value}\n\n"`. */
  function Section(heading: string, value: string): string {
    heading + ": " + value + "\n\n"
  }

  function Fulls(addrs: seq<Address>): (r: seq<string>)
    ensures |r| == |addrs| && forall i :: 0 <= i < |addrs| ==> r[i] == addrs[i].full
  {
    seq(|addrs|, i requires 0 <= i < |addrs| => addrs[i].full)
  }

  /** The attachment list of the text: `f"{name} ({size})"` per attachment. */
  function AttachmentLines(atts: seq<Attachment>, formatSize: nat -> string): (r: seq<string>)
    ensures |r| == |atts|
    ensures forall i :: 0 <= i < |atts| ==> r[i] == atts[i].filename + " (" + formatSize(atts[i].size) + ")"
  {
    seq(|atts|, i requires 0 <= i < |atts| => atts[i].filename + " (" + formatSize(atts[i].size) + ")")
  }

  /** The labelled sections `parse` writes before the bodies, in the order it writes them. */
  datatype Heading = Subject | From | To | CC | BCC | Attachments

  /** The label as it appears in the text. */
  function HeadingName(h: Heading): string {
    match h
    case Subject => "Subject"
    case From => "From"
    case To => "To"
    case CC => "CC"
    case BCC => "BCC"
    case Attachments => "Attachments"
  }

  /** The position of a heading in the order `parse` writes them. */
  function Rank(h: Heading): nat {
    match h
    case Subject => 0
    case From => 1
    case To => 2
    case CC => 3
    case BCC => 4
    case Attachments => 5
  }

  /** The header sections of the text, as (heading, value) pairs. */
  function HeaderSections(mail: Mail, formatSize: nat -> string): (r: seq<(Heading, string)>)
    requires mail.fromValues.Some?
    ensures |r| >= 3
    ensures r[0] == (Subject, mail.subject)
    ensures r[1] == (From, mail.fromValues.value.full)
    ensures r[2] == (To, Join(Fulls(mail.toValues), ", "))
    ensures (CC, Join(Fulls(mail.ccValues), ", ")) in r <==> |mail.ccValues| > 0
    ensures (BCC, Join(Fulls(mail.bccValues), ", ")) in r <==> |mail.bccValues| > 0
    ensures (Attachments, Join(AttachmentLines(mail.attachments, formatSize), ", ")) in r <==> |mail.attachments| > 0
    ensures |r| == 3 + (if |mail.ccValues| > 0 then 1 else 0) + (if |mail.bccValues| > 0 then 1 else 0)
      + (if |mail.attachments| > 0 then 1 else 0)
  {
    var base := [(Subject, mail.subject), (From, mail.fromValues.value.full), (To, Join(Fulls(mail.toValues), ", "))];
    var cc := if |mail.ccValues| >= 1 then [(CC, Join(Fulls(mail.ccValues), ", "))] else [];
    var bcc := if |mail.bccValues| >= 1 then [(BCC, Join(Fulls(mail.bccValues), ", "))] else [];
    var att := if |mail.attachments| >= 1 then [(Attachments, Join(AttachmentLines(mail.attachments, formatSize), ", "))] else [];
    base + cc + bcc + att
  }

  /** The sections come in the order Subject, From, To, CC, BCC, Attachments, each at most once. */
  lemma HeaderOrder(mail: Mail, formatSize: nat -> string)
    requires mail.fromValues.Some?
    ensures var r := HeaderSections(mail, formatSize);
      forall i :: 0 <= i < |r| - 1 ==> Rank(r[i].0) < Rank(r[i + 1].0)
  {
  }

  function RenderSections(sections: seq<(Heading, string)>): string
    decreases |sections|
  {
    if |sections| == 0 then "" else Section(HeadingName(sections[0].0), sections[0].1) + RenderSections(sections[1..])
  }

  /** `parse`'s text: the header sections, the stripped text Tika extracts
      from a non-empty HTML part, and the stripped plain-text body last,
      after an empty line. */
  function ParseText(mail: Mail, formatSize: nat -> string, tika: string -> string): (r: string)
    requires mail.fromValues.Some?
    ensures Section("Subject", mail.subject) <= r
    ensures var body := StripText(mail.text);
      && |r| >= |body| + 2
      && r[|r| - |body|..] == body
      && r[|r| - |body| - 2..|r| - |body|] == "\n\n"
  {
    var sections := HeaderSections(mail, formatSize);
    var html := if |mail.html| > 0 then "HTML content: " + StripText(tika(mail.html)) else "";
    var body := StripText(mail.text);
    TextLayout(sections, html, body);
    RenderSections(sections) + html + "\n\n" + body
  }

  /** The rendered text starts with the first section and ends with the body after an empty line. */
  lemma {:induction false} TextLayout(sections: seq<(Heading, string)>, html: string, body: string)
    requires |sections| > 0
    ensures var r := RenderSections(sections) + html + "\n\n" + body;
      && Section(HeadingName(sections[0].0), sections[0].1) <= r
      && |r| >= |body| + 2
      && r[|r| - |body|..] == body
      && r[|r| - |body| - 2..|r| - |body|] == "\n\n"
  {
    var first := Section(HeadingName(sections[0].0), sections[0].1);
    var rest := RenderSections(sections[1..]);
    assert RenderSections(sections) + html + "\n\n" + body == first + (rest + html + "\n\n" + body);
    PrefixOfAppend(first, rest + html + "\n\n" + body);
    LastSection(RenderSections(sections) + html, body);
  }

  lemma {:induction false} PrefixOfAppend(a: string, b: string)
    ensures a <= a + b
  {
    assert (a + b)[..|a|] == a;
  }

  lemma {:induction false} LastSection(head: string, body: string)
    ensures var r := head + "\n\n" + body;
      && r[|r| - |body|..] == body
      && r[|r| - |body| - 2..|r| - |body|] == "\n\n"
  {
  }

  /** The length of one rendered section. */
  function SectionLength(section: (Heading, string)): nat {
    |HeadingName(section.0)| + |section.1| + 4
  }

  /** Where the `i`-th section starts when the sections are written one after
      another: the total length of the sections before it. */
  function Offset(sections: seq<(Heading, string)>, i: nat): nat
    requires i <= |sections|
    decreases i
  {
    if i == 0 then 0 else Offset(sections, i - 1) + SectionLength(sections[i - 1])
  }

  lemma {:induction false} OffsetShift(sections: seq<(Heading, string)>, i: nat)
    requires 1 <= i <= |sections|
    ensures Offset(sections, i) == SectionLength(sections[0]) + Offset(sections[1..], i - 1)
    decreases i
  {
    if i > 1 {
      OffsetShift(sections, i - 1);
      assert sections[1..][i - 2] == sections[i - 1];
    }
  }

  lemma {:induction false} OffsetMonotone(sections: seq<(Heading, string)>, i: nat, j: nat)
    requires i <= j <= |sections|
    ensures Offset(sections, i) <= Offset(sections, j)
    decreases j
  {
    if i < j {
      OffsetMonotone(sections, i, j - 1);
    }
  }

  /** Every section is written, whole, at its offset in `r`. */
  predicate SectionsAt(r: string, sections: seq<(Heading, string)>) {
    forall i :: 0 <= i < |sections| ==> SectionAt(r, sections, i)
  }

  predicate SectionAt(r: string, sections: seq<(Heading, string)>, i: nat)
    requires i < |sections|
  {
    && Offset(sections, i + 1) <= |r|
    && r[Offset(sections, i)..Offset(sections, i + 1)] == Section(HeadingName(sections[i].0), sections[i].1)
  }

  /** The rendered sections sit at their offsets, and nothing follows the last one. */
  lemma {:induction false} RenderSectionsLayout(sections: seq<(Heading, string)>)
    ensures |RenderSections(sections)| == Offset(sections, |sections|)
    ensures SectionsAt(RenderSections(sections), sections)
    decreases |sections|
  {
    if |sections| > 0 {
      var first := Section(HeadingName(sections[0].0), sections[0].1);
      var rest := RenderSections(sections[1..]);
      RenderSectionsLayout(sections[1..]);
      OffsetShift(sections, |sections|);
      assert RenderSections(sections) == first + rest;
      forall i | 0 <= i < |sections|
        ensures SectionAt(first + rest, sections, i)
      {
        SectionAtCons(sections, rest, i);
      }
    }
  }

  lemma {:induction false} SectionAtCons(sections: seq<(Heading, string)>, rest: string, i: nat)
    requires i < |sections|
    requires |rest| == Offset(sections[1..], |sections| - 1)
    requires SectionsAt(rest, sections[1..])
    ensures SectionAt(Section(HeadingName(sections[0].0), sections[0].1) + rest, sections, i)
  {
    var first := Section(HeadingName(sections[0].0), sections[0].1);
    var tail := sections[1..];
    assert |first| == SectionLength(sections[0]);
    OffsetShift(sections, |sections|);
    OffsetMonotone(sections, i + 1, |sections|);
    OffsetShift(sections, i + 1);
    if i == 0 {
      assert (first + rest)[0..|first|] == first;
    } else {
      OffsetShift(sections, i);
      assert SectionAt(rest, tail, i - 1);
      assert tail[i - 1] == sections[i];
      SliceRight(first, rest, Offset(tail, i - 1), Offset(tail, i));
    }
  }

  lemma Regroup(a: string, b: string, c: string, d: string)
    ensures a + b + c + d == a + (b + c + d)
  {
  }

  lemma SliceRight(a: string, b: string, lo: nat, hi: nat)
    requires lo <= hi <= |b|
    ensures (a + b)[|a| + lo..|a| + hi] == b[lo..hi]
  {
  }

  lemma SliceLeft(a: string, b: string, lo: nat, hi: nat)
    requires lo <= hi <= |a|
    ensures (a + b)[lo..hi] == a[lo..hi]
  {
  }

  /** The sections keep their offsets when more text follows them. */
  lemma {:induction false} SectionsThenTail(sections: seq<(Heading, string)>, tail: string)
    ensures Offset(sections, |sections|) <= |RenderSections(sections) + tail|
    ensures SectionsAt(RenderSections(sections) + tail, sections)
    ensures (RenderSections(sections) + tail)[Offset(sections, |sections|)..] == tail
  {
    var rendered := RenderSections(sections);
    RenderSectionsLayout(sections);
    forall i | 0 <= i < |sections|
      ensures SectionAt(rendered + tail, sections, i)
    {
      assert SectionAt(rendered, sections, i);
      SliceLeft(rendered, tail, Offset(sections, i), Offset(sections, i + 1));
    }
    assert (rendered + tail)[|rendered|..] == tail;
  }

  /** The text of `parse`, piece by piece: every header section at its offset,
      in order; then, from the end of the last section, `"HTML content: "` and
      the stripped Tika text of a non-empty HTML part, and the stripped
      plain-text body after an empty line. */
  lemma {:induction false} ParseTextLayout(mail: Mail, formatSize: nat -> string, tika: string -> string)
    requires mail.fromValues.Some?
    ensures SectionsAt(ParseText(mail, formatSize, tika), HeaderSections(mail, formatSize))
    ensures var end := Offset(HeaderSections(mail, formatSize), |HeaderSections(mail, formatSize)|);
      && end <= |ParseText(mail, formatSize, tika)|
      && (|mail.html| > 0 ==>
            ParseText(mail, formatSize, tika)[end..]
            == "HTML content: " + StripText(tika(mail.html)) + "\n\n" + StripText(mail.text))
      && (|mail.html| == 0 ==> ParseText(mail, formatSize, tika)[end..] == "\n\n" + StripText(mail.text))
  {
    var html := if |mail.html| > 0 then "HTML content: " + StripText(tika(mail.html)) else "";
    TextPieces(ParseText(mail, formatSize, tika), HeaderSections(mail, formatSize), html, StripText(mail.text));
  }

  lemma {:induction false} TextPieces(r: string, sections: seq<(Heading, string)>, html: string, body: string)
    requires r == RenderSections(sections) + html + "\n\n" + body
    ensures SectionsAt(r, sections)
    ensures Offset(sections, |sections|) <= |r|
    ensures r[Offset(sections, |sections|)..] == html + "\n\n" + body
    ensures html == "" ==> r[Offset(sections, |sections|)..] == "\n\n" + body
  {
    Regroup(RenderSections(sections), html, "\n\n", body);
    SectionsThenTail(sections, html + "\n\n" + body);
    assert html == "" ==> html + "\n\n" + body == "\n\n" + body;
  }

  /** The plain-text body is what follows the text's last newline. */
  lemma {:induction false} BodyAfterLastNewline(mail: Mail, formatSize: nat -> string, tika: string -> string)
    requires mail.fromValues.Some?
    ensures var r := ParseText(mail, formatSize, tika);
      exists k :: 0 <= k < |r| && r[k] == '\n' && NoNewline(r[k + 1..]) && r[k + 1..] == StripText(mail.text)
  {
    var r := ParseText(mail, formatSize, tika);
    var body := StripText(mail.text);
    var k := |r| - |body| - 1;
    assert r[k] == r[|r| - |body| - 2..|r| - |body|][1];
    assert r[k + 1..] == body;
  }

  // ---------------------------------------------------------------------
  // extract_metadata
  // ---------------------------------------------------------------------

  datatype MetadataEntry = MetadataEntry(namespace: string, prefix: string, key: string, value: string)

  /** Python's `<=` on strings: lexicographic by code point. */
  predicate StrLe(a: string, b: string)
    decreases |a|
  {
    if |a| == 0 then true
    else if |b| == 0 then false
    else if a[0] != b[0] then a[0] < b[0]
    else StrLe(a[1..], b[1..])
  }

  lemma {:induction false} StrLeTotal(a: string, b: string)
    ensures StrLe(a, b) || StrLe(b, a)
    decreases |a|
  {
    if |a| > 0 && |b| > 0 && a[0] == b[0] {
      StrLeTotal(a[1..], b[1..]);
    }
  }

  /** The sort key `(item["prefix"], item["key"])`, compared as Python compares tuples. */
  predicate EntryLe(x: MetadataEntry, y: MetadataEntry) {
    if x.prefix != y.prefix then StrLe(x.prefix, y.prefix) else StrLe(x.key, y.key)
  }

  lemma {:induction false} EntryLeTotal(x: MetadataEntry, y: MetadataEntry)
    ensures EntryLe(x, y) || EntryLe(y, x)
  {
    StrLeTotal(x.prefix, y.prefix);
    StrLeTotal(x.key, y.key);
  }

  predicate Sorted(s: seq<MetadataEntry>) {
    forall i :: 0 <= i < |s| - 1 ==> EntryLe(s[i], s[i + 1])
  }

  /** Puts `x` behind every leading element not above it, so entries with
      equal keys keep the order in which they were inserted. */
  function Insert(x: MetadataEntry, s: seq<MetadataEntry>): (r: seq<MetadataEntry>)
    requires Sorted(s)
    ensures Sorted(r)
    ensures multiset(r) == multiset(s) + multiset{x}
    ensures |r| == |s| + 1 && (r[0] == x || (|s| > 0 && r[0] == s[0]))
  {
    if |s| == 0 || !EntryLe(s[0], x) then
      EntryLeTotal(x, if |s| == 0 then x else s[0]);
      [x] + s
    else
      var rest := Insert(x, s[1..]);
      assert s == [s[0]] + s[1..];
      [s[0]] + rest
  }

  /** `list.sort` with the entry key: a stable insertion sort, taking the elements in list order. */
  function Sort(s: seq<MetadataEntry>): (r: seq<MetadataEntry>)
    ensures Sorted(r)
    ensures multiset(r) == multiset(s)
    ensures |r| == |s|
  {
    if |s| == 0 then []
    else
      assert s == s[..|s| - 1] + [s[|s| - 1]];
      Insert(s[|s| - 1], Sort(s[..|s| - 1]))
  }

  function HeaderEntries(headers: seq<(string, seq<string>)>): (r: seq<MetadataEntry>)
    ensures |r| == |headers|
    ensures forall i :: 0 <= i < |headers| ==> r[i] == MetadataEntry("", "header", headers[i].0, Join(headers[i].1, ", "))
  {
    seq(|headers|, i requires 0 <= i < |headers| => MetadataEntry("", "header", headers[i].0, Join(headers[i].1, ", ")))
  }

  /** The attachment list of the metadata: `f"{name}({size})"`, without the space the text puts there. */
  function AttachmentsEntry(atts: seq<Attachment>, formatSize: nat -> string): (r: MetadataEntry)
    ensures r.prefix == "" && r.key == "attachments"
  {
    var names := seq(|atts|, i requires 0 <= i < |atts| => atts[i].filename + "(" + formatSize(atts[i].size) + ")");
    MetadataEntry("", "", "attachments", Join(names, ", "))
  }

  function DateEntry(date: Timestamp, strftime: Timestamp -> string): (r: MetadataEntry)
    ensures r.prefix == "" && r.key == "date"
  {
    MetadataEntry("", "", "date", strftime(date))
  }

  /** `extract_metadata`: nothing for a message that cannot be parsed;
      otherwise one entry per header, the attachment list and the date,
      sorted by prefix and key. */
  function ExtractMetadata(read: Option<Mail>, formatSize: nat -> string, strftime: Timestamp -> string): (r: seq<MetadataEntry>)
    ensures GetParsed(read).Err? ==> r == []
    ensures GetParsed(read).Ok? ==> var mail := GetParsed(read).value;
      && Sorted(r)
      && multiset(r) == multiset(HeaderEntries(mail.headers) + [AttachmentsEntry(mail.attachments, formatSize), DateEntry(mail.date, strftime)])
      && r == [AttachmentsEntry(mail.attachments, formatSize), DateEntry(mail.date, strftime)] + Sort(HeaderEntries(mail.headers))
  {
    match GetParsed(read)
    case Err(_) => []
    case Ok(mail) =>
      var hs := HeaderEntries(mail.headers);
      var att := AttachmentsEntry(mail.attachments, formatSize);
      var date := DateEntry(mail.date, strftime);
      MetadataShape(hs, att, date);
      Sort(hs + [att, date])
  }

  /** The two entries with the empty prefix sort before every header, attachments before date. */
  lemma {:induction false} MetadataShape(hs: seq<MetadataEntry>, att: MetadataEntry, date: MetadataEntry)
    requires forall i :: 0 <= i < |hs| ==> hs[i].prefix == "header"
    requires att.prefix == "" && att.key == "attachments"
    requires date.prefix == "" && date.key == "date"
    ensures Sort(hs + [att, date]) == [att, date] + Sort(hs)
  {
    var sorted := Sort(hs);
    AppendPair(hs, att, date);
    SortSnoc(hs + [att], date);
    SortSnoc(hs, att);
    SortedHeaders(hs);
    InsertSmallest(att, sorted);
    var withAtt := Sort(hs + [att]);
    assert withAtt == [att] + sorted;
    InsertSmallest(date, sorted);
    InsertPastFirst(date, att, sorted);
    assert Insert(date, withAtt) == [att] + ([date] + sorted);
    ConsPair(att, date, sorted);
  }

  lemma {:induction false} AppendPair<T>(s: seq<T>, a: T, b: T)
    ensures s + [a, b] == (s + [a]) + [b]
  {
    assert [a, b] == [a] + [b];
  }

  lemma {:induction false} ConsPair<T>(a: T, b: T, s: seq<T>)
    ensures [a] + ([b] + s) == [a, b] + s
  {
    assert [a, b] == [a] + [b];
  }

  /** Sorting a list with one more element at the end inserts that element into the sorted rest. */
  lemma {:induction false} SortSnoc(s: seq<MetadataEntry>, x: MetadataEntry)
    ensures Sort(s + [x]) == Insert(x, Sort(s))
  {
    assert (s + [x])[..|s|] == s;
  }

  /** Sorting keeps every element's prefix among the input's. */
  lemma {:induction false} SortedHeaders(hs: seq<MetadataEntry>)
    requires forall i :: 0 <= i < |hs| ==> hs[i].prefix == "header"
    ensures forall i :: 0 <= i < |Sort(hs)| ==> Sort(hs)[i].prefix == "header"
  {
    var sorted := Sort(hs);
    forall i | 0 <= i < |sorted|
      ensures sorted[i].prefix == "header"
    {
      assert sorted[i] in multiset(hs);
    }
  }

  /** An entry not below the head of a sorted list goes behind it. */
  lemma {:induction false} InsertPastFirst(x: MetadataEntry, a: MetadataEntry, s: seq<MetadataEntry>)
    requires Sorted([a] + s) && EntryLe(a, x)
    ensures Sorted(s) && Insert(x, [a] + s) == [a] + Insert(x, s)
  {
    assert ([a] + s)[1..] == s;
  }

  /** An entry below every element of a sorted list is inserted in front. */
  lemma {:induction false} InsertSmallest(x: MetadataEntry, s: seq<MetadataEntry>)
    requires Sorted(s)
    requires x.prefix == "" && forall i :: 0 <= i < |s| ==> s[i].prefix == "header"
    ensures Insert(x, s) == [x] + s
  {
    if |s| > 0 {
      assert !EntryLe(s[0], x);
    }
  }

  // ---------------------------------------------------------------------
  // transform_inline_html
  // ---------------------------------------------------------------------

  const ScriptOpen := "<script"
  const DivOpen := "<div hidden "
  const ScriptClose := "</script"
  const DivClose := "</div"

  /** `clean_html_script`: every `<script`, in any letter case, becomes
      `<div hidden `; then every `</script` becomes `</div`. */
  function CleanHtmlScript(text: string): (r: string)
    ensures !Occurs(r, ScriptOpen, true) && !Occurs(r, ScriptClose, true)
  {
    DivShields();
    var openFree := ReplaceAll(text, ScriptOpen, DivOpen, true);
    ReplaceAllKeepsFree(text, ScriptOpen, DivOpen, true, ScriptOpen, true);
    ReplaceAllKeepsFree(openFree, ScriptClose, DivClose, true, ScriptOpen, true);
    ReplaceAllKeepsFree(openFree, ScriptClose, DivClose, true, ScriptClose, true);
    ReplaceAll(openFree, ScriptClose, DivClose, true)
  }

  /** Neither replacement can form a script tag with the text around it. */
  lemma {:induction false} DivShields()
    ensures Shields(DivOpen, ScriptOpen, true)
    ensures Shields(DivClose, ScriptOpen, true)
    ensures Shields(DivClose, ScriptClose, true)
    ensures Shields(DivOpen, ScriptClose, true)
  {
    forall o: nat | o < |DivOpen|
      ensures Clash(DivOpen, ScriptOpen, o, 0, true)
    {
      var a := if o == 0 then 1 else o;
      assert !CharEq(DivOpen[a], ScriptOpen[a - o], true);
    }
    forall m: nat | 1 <= m < |ScriptOpen|
      ensures Clash(DivOpen, ScriptOpen, 0, m, true)
    {
      assert !CharEq(DivOpen[0], ScriptOpen[m], true);
    }
    forall o: nat | o < |DivClose|
      ensures Clash(DivClose, ScriptOpen, o, 0, true)
    {
      var a := if o == 0 then 1 else o;
      assert !CharEq(DivClose[a], ScriptOpen[a - o], true);
    }
    forall m: nat | 1 <= m < |ScriptOpen|
      ensures Clash(DivClose, ScriptOpen, 0, m, true)
    {
      assert !CharEq(DivClose[0], ScriptOpen[m], true);
    }
    forall o: nat | o < |DivClose|
      ensures Clash(DivClose, ScriptClose, o, 0, true)
    {
      var a := if o == 0 then 2 else o;
      assert !CharEq(DivClose[a], ScriptClose[a - o], true);
    }
    forall m: nat | 1 <= m < |ScriptClose|
      ensures Clash(DivClose, ScriptClose, 0, m, true)
    {
      assert !CharEq(DivClose[0], ScriptClose[m], true);
    }
    forall o: nat | o < |DivOpen|
      ensures Clash(DivOpen, ScriptClose, o, 0, true)
    {
      var a := if o == 0 then 1 else o;
      assert !CharEq(DivOpen[a], ScriptClose[a - o], true);
    }
    forall m: nat | 1 <= m < |ScriptClose|
      ensures Clash(DivOpen, ScriptClose, 0, m, true)
    {
      assert !CharEq(DivOpen[0], ScriptClose[m], true);
    }
  }

  /** No script tag, opening or closing, begins before `i`. */
  predicate TagFreeBefore(text: string, i: nat) {
    forall j :: 0 <= j < i ==> !MatchesAt(text, j, ScriptOpen, true) && !MatchesAt(text, j, ScriptClose, true)
  }

  /** Read as one left-to-right pass, `clean_html_script` copies the text up to
      its first script tag; when that tag opens a script it becomes
      `<div hidden `, and the rest is cleaned the same way. */
  lemma {:induction false} CleanHtmlScriptOpen(text: string, i: nat)
    requires TagFreeBefore(text, i) && MatchesAt(text, i, ScriptOpen, true)
    ensures CleanHtmlScript(text) == text[..i] + DivOpen + CleanHtmlScript(text[i + |ScriptOpen|..])
  {
    var rest := text[i + |ScriptOpen|..];
    var u := ReplaceAll(rest, ScriptOpen, DivOpen, true);
    ReplaceAllStep(text, i, ScriptOpen, DivOpen, true);
    DivShields();
    forall j | 0 <= j < |text[..i]|
      ensures !MatchesAt(text[..i], j, ScriptClose, true)
    {
      if j + |ScriptClose| <= i {
        assert text == text[..i] + text[i..];
        MatchesAtPrefix(text[..i], text[i..], j, ScriptClose, true);
      }
    }
    ShieldedAfter(text[..i], DivOpen, u, ScriptClose, true);
    ReplaceAllCopy(text[..i] + DivOpen, u, ScriptClose, DivClose, true);
  }

  /** ... and when the first tag closes a script it becomes `</div`. */
  lemma {:induction false} CleanHtmlScriptClose(text: string, i: nat)
    requires TagFreeBefore(text, i) && MatchesAt(text, i, ScriptClose, true)
    ensures CleanHtmlScript(text) == text[..i] + DivClose + CleanHtmlScript(text[i + |ScriptClose|..])
  {
    var n := i + |ScriptClose|;
    var rest := text[n..];
    var u := ReplaceAll(rest, ScriptOpen, DivOpen, true);
    assert text == text[..n] + rest;
    CloseStartsNoOpen(text, i);
    ReplaceAllCopy(text[..n], rest, ScriptOpen, DivOpen, true);
    var v := text[..n] + u;
    assert MatchesAt(v, i, ScriptClose, true) by {
      MatchesAtPrefix(text[..n], rest, i, ScriptClose, true);
      MatchesAtPrefix(text[..n], u, i, ScriptClose, true);
    }
    forall j | 0 <= j < i
      ensures !MatchesAt(v, j, ScriptClose, true)
    {
      MatchesAtPrefix(text[..n], rest, j, ScriptClose, true);
      MatchesAtPrefix(text[..n], u, j, ScriptClose, true);
    }
    ReplaceAllStep(v, i, ScriptClose, DivClose, true);
    assert v[..i] == text[..i];
    assert v[n..] == u;
  }

  /** Text without script tags passes through unchanged. */
  lemma CleanHtmlScriptPlain(text: string)
    requires !Occurs(text, ScriptOpen, true) && !Occurs(text, ScriptClose, true)
    ensures CleanHtmlScript(text) == text
  {
    ReplaceAllNoOccurrence(text, ScriptOpen, DivOpen, true);
    ReplaceAllNoOccurrence(text, ScriptClose, DivClose, true);
  }

  /** No opening tag begins inside a closing one. */
  lemma CloseStartsNoOpen(text: string, i: nat)
    requires TagFreeBefore(text, i) && MatchesAt(text, i, ScriptClose, true)
    ensures forall j :: 0 <= j < i + |ScriptClose| ==> !MatchesAt(text, j, ScriptOpen, true)
  {
    forall j | i <= j < i + |ScriptClose|
      ensures !MatchesAt(text, j, ScriptOpen, true)
    {
      assert CharEq(text[j], ScriptClose[j - i], true);
      if j == i {
        assert CharEq(text[i + 1], ScriptClose[1], true);
        assert !CharEq(text[i + 1], ScriptOpen[1], true);
      } else {
        assert !CharEq(text[j], ScriptOpen[0], true);
      }
    }
  }

  /** `"".join(e for e in s if e.isalnum())`. */
  function AlnumOnly(s: string): (r: string)
    ensures forall i :: 0 <= i < |r| ==> IsAlnum(r[i])
    ensures forall c :: IsAlnum(c) ==> (c in r <==> c in s)
    ensures IsSubsequence(r, s)
  {
    if |s| == 0 then ""
    else
      var rest := AlnumOnly(s[1..]);
      assert s == [s[0]] + s[1..];
      if IsAlnum(s[0]) then
        assert ([s[0]] + rest)[1..] == rest;
        [s[0]] + rest
      else
        SkipHead(s[0], rest, s[1..]);
        rest
  }

  /** Every occurrence of a letter or digit survives. */
  lemma {:induction false} AlnumOnlyCounts(s: string)
    ensures forall c :: IsAlnum(c) ==> multiset(AlnumOnly(s))[c] == multiset(s)[c]
    decreases |s|
  {
    if |s| > 0 {
      AlnumOnlyCounts(s[1..]);
      assert s == [s[0]] + s[1..];
    }
  }

  /** `"cid:" + content_id`. */
  function CidName(a: Attachment): string {
    "cid:" + a.contentId
  }

  /** The reference with only its letters and digits kept. */
  function CleanName(a: Attachment): (r: string)
    ensures |r| >= 3 && r[..3] == "cid"
    ensures forall i :: 0 <= i < |r| ==> IsAlnum(r[i])
  {
    var r := AlnumOnly(CidName(a));
    assert CidName(a) == "cid" + [':'] + a.contentId;
    AlnumOnlyTagged("cid", ':', a.contentId);
    r
  }

  /** Cleaning a tag, a separator and an id keeps the tag and drops the separator. */
  lemma {:induction false} AlnumOnlyTagged(tag: string, sep: char, id: string)
    requires forall i :: 0 <= i < |tag| ==> IsAlnum(tag[i])
    requires !IsAlnum(sep)
    ensures AlnumOnly(tag + [sep] + id) == tag + AlnumOnly(id)
  {
    AlnumOnlyAppend(tag + [sep], id);
    AlnumOnlyAppend(tag, [sep]);
    AlnumOnlyKeeps(tag);
    assert AlnumOnly([sep]) == [] by {
      assert [sep][1..] == [];
    }
    assert AlnumOnly(tag + [sep]) == tag;
  }

  /** A string of letters and digits is left as it is. */
  lemma {:induction false} AlnumOnlyKeeps(s: string)
    requires forall i :: 0 <= i < |s| ==> IsAlnum(s[i])
    ensures AlnumOnly(s) == s
    decreases |s|
  {
    if |s| > 0 {
      AlnumOnlyKeeps(s[1..]);
      AlnumOnlyCons(s[0], s[1..]);
      assert s == [s[0]] + s[1..];
    }
  }

  lemma AlnumOnlyCons(c: char, s: string)
    ensures AlnumOnly([c] + s) == (if IsAlnum(c) then [c] else []) + AlnumOnly(s)
  {
    assert ([c] + s)[1..] == s;
  }

  lemma {:induction false} AlnumOnlyAppend(a: string, b: string)
    ensures AlnumOnly(a + b) == AlnumOnly(a) + AlnumOnly(b)
    decreases |a|
  {
    if |a| == 0 {
      assert a + b == b;
    } else {
      assert (a + b)[1..] == a[1..] + b;
      AlnumOnlyAppend(a[1..], b);
    }
  }

  /** A clean name, all letters and digits after `cid`, can form no script tag with the text around it. */
  lemma {:induction false} CleanNameShields(a: Attachment)
    ensures Shields(CleanName(a), ScriptOpen, true)
    ensures Shields(CleanName(a), ScriptClose, true)
  {
    var rep := CleanName(a);
    assert rep[0] == 'c' && rep[1] == 'i';
    forall o: nat | o < |rep|
      ensures Clash(rep, ScriptOpen, o, 0, true) && Clash(rep, ScriptClose, o, 0, true)
    {
      assert IsAlnum(rep[o]);
      assert !CharEq(rep[o], ScriptOpen[0], true);
    }
    forall m: nat | 1 <= m < |ScriptOpen|
      ensures Clash(rep, ScriptOpen, 0, m, true)
    {
      if ScriptOpen[m] == 'c' {
        assert !CharEq(rep[1], ScriptOpen[m + 1], true);
      } else {
        assert !CharEq(rep[0], ScriptOpen[m], true);
      }
    }
    forall m: nat | 1 <= m < |ScriptClose|
      ensures Clash(rep, ScriptClose, 0, m, true)
    {
      if ScriptClose[m] == 'c' {
        assert !CharEq(rep[1], ScriptClose[m + 1], true);
      } else {
        assert !CharEq(rep[0], ScriptClose[m], true);
      }
    }
  }

  /** The attachment loop's rewrite: each attachment's `cid:` reference,
      in attachment order, replaced by its clean name everywhere. */
  function RewriteCids(html: string, atts: seq<Attachment>): (r: string)
    ensures !Occurs(html, ScriptOpen, true) ==> !Occurs(r, ScriptOpen, true)
    ensures !Occurs(html, ScriptClose, true) ==> !Occurs(r, ScriptClose, true)
    decreases |atts|
  {
    if |atts| == 0 then html
    else
      var next := ReplaceAll(html, CidName(atts[0]), CleanName(atts[0]), false);
      CleanNameShields(atts[0]);
      CaseSensitiveKeepsFree(html, CidName(atts[0]), CleanName(atts[0]), ScriptOpen);
      CaseSensitiveKeepsFree(html, CidName(atts[0]), CleanName(atts[0]), ScriptClose);
      RewriteCids(next, atts[1..])
  }

  /** An exact-case replacement by a shielding `rep` keeps a text free of `p` in any letter case. */
  lemma {:induction false} CaseSensitiveKeepsFree(s: string, pat: string, rep: string, p: string)
    requires |pat| > 0 && Shields(rep, p, true)
    ensures !Occurs(s, p, true) ==> !Occurs(ReplaceAll(s, pat, rep, false), p, true)
  {
    if !Occurs(s, p, true) {
      ReplaceAllKeepsFree(s, pat, rep, false, p, true);
    }
  }

  datatype FileContent = Payload(bytes: Bytes) | Markup(text: string)

  /** `transform_inline_html`: one file per attachment under its clean name,
      in order, then `index.html` holding the rewritten HTML, which contains
      no script tag in any letter case. */
  function TransformInlineHtml(html: string, atts: seq<Attachment>): (r: seq<(string, FileContent)>)
    ensures |r| == |atts| + 1
    ensures forall i :: 0 <= i < |atts| ==> r[i] == (CleanName(atts[i]), Payload(atts[i].payload))
    ensures r[|atts|].0 == "index.html" && r[|atts|].1.Markup?
    ensures !Occurs(r[|atts|].1.text, ScriptOpen, true) && !Occurs(r[|atts|].1.text, ScriptClose, true)
  {
    var files := seq(|atts|, i requires 0 <= i < |atts| => (CleanName(atts[i]), Payload(atts[i].payload)));
    files + [("index.html", Markup(RewriteCids(CleanHtmlScript(html), atts)))]
  }

  /** HTML without script tags or attachment references passes through unchanged. */
  lemma {:induction false} TransformKeepsPlainHtml(html: string, atts: seq<Attachment>)
    requires !Occurs(html, ScriptOpen, true) && !Occurs(html, ScriptClose, true)
    requires forall i :: 0 <= i < |atts| ==> !Occurs(html, CidName(atts[i]), false)
    ensures TransformInlineHtml(html, atts)[|atts|].1 == Markup(html)
  {
    CleanHtmlScriptPlain(html);
    RewriteCidsAbsent(html, atts);
  }

  lemma {:induction false} RewriteCidsAbsent(html: string, atts: seq<Attachment>)
    requires forall i :: 0 <= i < |atts| ==> !Occurs(html, CidName(atts[i]), false)
    ensures RewriteCids(html, atts) == html
    decreases |atts|
  {
    if |atts| > 0 {
      ReplaceAllNoOccurrence(html, CidName(atts[0]), CleanName(atts[0]), false);
      assert forall i :: 0 <= i < |atts[1..]| ==> atts[1..][i] == atts[i + 1];
      RewriteCidsAbsent(html, atts[1..]);
    }
  }
}
