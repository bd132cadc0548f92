/**
 * The pure parts of the REST serialisers in `documents/serialisers.py`: the
 * tag colour table of `ColorField`, `validate_color`, the field pruning of
 * `DynamicFieldsModelSerializer`, the id-list validators, the content
 * truncation of `DocumentSerializer.to_representation` and the related
 * document id that `TasksViewSerializer` extracts from a task result.
 */
module Serialisers {
  import opened Wrappers
  import opened Strings

  /** A value as the request parser hands it to a serialiser. */
  datatype Datum = DNone | DBool(b: bool) | DInt(i: int) | DFloat(f: real) | DStr(s: string) | DList(items: seq<Datum>)

  /** Python's `==` between a value and an integer: `bool` is a subclass of
      `int` (`True == 1`) and a float equals the integer it denotes. */
  predicate EqualsInt(d: Datum, n: int) {
    match d
    case DBool(b) => (if b then 1 else 0) == n
    case DInt(i) => i == n
    case DFloat(f) => f == n as real
    case _ => false
  }

  /** Why an id list was refused. */
  datatype IdListProblem = NotAList | NotIntegers | MissingOrRepeated

  datatype ValidationError =
    | UnknownColour
    | InvalidColor
    | BadIdList(problem: IdListProblem, name: string)

  // ---------------------------------------------------------------------
  // ColorField
  // ---------------------------------------------------------------------

  /** `ColorField.COLOURS`: the legacy colour ids and their hex colours. */
  const Colours: seq<(int, string)> := [
    (1, "#a6cee3"), (2, "#1f78b4"), (3, "#b2df8a"), (4, "#33a02c"),
    (5, "#fb9a99"), (6, "#e31a1c"), (7, "#fdbf6f"), (8, "#ff7f00"),
    (9, "#cab2d6"), (10, "#6a3d9a"), (11, "#b15928"), (12, "#000000"),
    (13, "#cccccc")
  ]

  /** The id a representation falls back to for an unknown colour. */
  const DefaultColourId := 1

  /** The position of the first table entry whose id equals `data`, or the table's length. */
  function IdIndex(table: seq<(int, string)>, data: Datum): (k: nat)
    ensures k <= |table|
    ensures forall j :: 0 <= j < k ==> !EqualsInt(data, table[j].0)
    ensures k < |table| ==> EqualsInt(data, table[k].0)
  {
    if |table| == 0 then 0
    else if EqualsInt(data, table[0].0) then 0
    else 1 + IdIndex(table[1..], data)
  }

  /** The position of the first table entry whose colour is `value`, or the table's length. */
  function ColourIndex(table: seq<(int, string)>, value: string): (k: nat)
    ensures k <= |table|
    ensures forall j :: 0 <= j < k ==> table[j].1 != value
    ensures k < |table| ==> table[k].1 == value
  {
    if |table| == 0 then 0
    else if table[0].1 == value then 0
    else 1 + ColourIndex(table[1..], value)
  }

  /** The table's ids are 1 to 13 in order. */
  lemma ColourIds()
    ensures |Colours| == 13
    ensures forall k :: 0 <= k < |Colours| ==> Colours[k].0 == k + 1
  {
  }

  /** The 13 colours are pairwise distinct. */
  lemma ColoursDistinct()
    ensures forall i, j :: 0 <= i < |Colours| && 0 <= j < |Colours| && Colours[i].1 == Colours[j].1 ==> i == j
  {
    forall i, j | 0 <= i < |Colours| && 0 <= j < |Colours| && i != j
      ensures Colours[i].1 != Colours[j].1
    {
      // The six hex digits tell any two table colours apart.
      assert Colours[i].1[1..] != Colours[j].1[1..];
    }
  }

  /** `to_internal_value`: the colour whose id equals `data`; anything else is refused. */
  function ToInternalValue(data: Datum): (r: Result<string, ValidationError>)
    ensures r.Ok? <==> exists n :: 1 <= n <= 13 && EqualsInt(data, n)
    ensures forall n :: 1 <= n <= 13 && EqualsInt(data, n) ==> r == Ok(Colours[n - 1].1)
    ensures r.Err? ==> r.error == UnknownColour
  {
    ColourIds();
    LookupId(Colours, data)
  }

  /** The entry of a table numbered 1, 2, ... whose id equals `data`, or `UnknownColour`. */
  function LookupId(table: seq<(int, string)>, data: Datum): (r: Result<string, ValidationError>)
    requires forall k :: 0 <= k < |table| ==> table[k].0 == k + 1
    ensures r.Ok? <==> exists n :: 1 <= n <= |table| && EqualsInt(data, n)
    ensures forall n :: 1 <= n <= |table| && EqualsInt(data, n) ==> r == Ok(table[n - 1].1)
    ensures r.Err? ==> r.error == UnknownColour
  {
    var k := IdIndex(table, data);
    if k < |table| then
      assert EqualsInt(data, k + 1);
      Ok(table[k].1)
    else
      NoIdMatches(table, data);
      Err(UnknownColour)
  }

  /** In a table numbered 1, 2, ..., a value the scan passes over equals none of the ids. */
  lemma NoIdMatches(table: seq<(int, string)>, data: Datum)
    requires forall k :: 0 <= k < |table| ==> table[k].0 == k + 1
    requires IdIndex(table, data) == |table|
    ensures forall n :: 1 <= n <= |table| ==> !EqualsInt(data, n)
  {
    forall n | 1 <= n <= |table|
      ensures !EqualsInt(data, n)
    {
      assert table[n - 1].0 == n;
    }
  }

  /** `to_representation`: the id of a known colour, the default id otherwise. */
  function ToRepresentation(value: string): (r: int)
    ensures 1 <= r <= 13
    ensures forall k :: 0 <= k < |Colours| && Colours[k].1 == value ==> r == k + 1
    ensures (forall k :: 0 <= k < |Colours| ==> Colours[k].1 != value) ==> r == DefaultColourId
  {
    ColourIds();
    ColoursDistinct();
    var k := ColourIndex(Colours, value);
    if k < |Colours| then Colours[k].0 else DefaultColourId
  }

  /** Every colour id survives the trip to a colour and back. */
  lemma IdRoundTrip(n: int)
    requires 1 <= n <= 13
    ensures ToInternalValue(DInt(n)).Ok?
    ensures ToRepresentation(ToInternalValue(DInt(n)).value) == n
  {
    assert EqualsInt(DInt(n), n);
  }

  /** Every table colour survives the trip to an id and back; any other colour comes back as the default colour. */
  lemma ColourRoundTrip(value: string)
    ensures ToInternalValue(DInt(ToRepresentation(value))).Ok?
    ensures (exists k :: 0 <= k < |Colours| && Colours[k].1 == value)
      ==> ToInternalValue(DInt(ToRepresentation(value))) == Ok(value)
    ensures (forall k :: 0 <= k < |Colours| ==> Colours[k].1 != value)
      ==> ToInternalValue(DInt(ToRepresentation(value))) == Ok(Colours[0].1)
  {
    var n := ToRepresentation(value);
    assert EqualsInt(DInt(n), n);
  }

  /** Python's `True == 1` makes `True` a colour id, while the text `"1"` is not one. */
  lemma ColourIdEquality()
    ensures ToInternalValue(DBool(true)) == Ok("#a6cee3")
    ensures ToInternalValue(DFloat(2.0)) == Ok("#1f78b4")
    ensures ToInternalValue(DStr("1")) == Err(UnknownColour)
    ensures ToInternalValue(DBool(false)) == Err(UnknownColour)
  {
    assert EqualsInt(DBool(true), 1);
    assert EqualsInt(DFloat(2.0), 2);
  }

  // ---------------------------------------------------------------------
  // TagSerializer.validate_color
  // ---------------------------------------------------------------------

  predicate IsHexDigit(c: char) {
    IsDigit(c) || ('a' <= c <= 'f') || ('A' <= c <= 'F')
  }

  /** `re.match(r"#[0-9a-fA-F]{6}", s)` succeeds: the pattern is anchored at the start only. */
  predicate HexColourPrefix(s: string) {
    |s| >= 7 && s[0] == '#' && forall i :: 1 <= i < 7 ==> IsHexDigit(s[i])
  }

  /** `validate_color`: the colour itself, or "Invalid color." */
  function ValidateColor(color: string): (r: Result<string, ValidationError>)
    ensures r.Ok? ==> r.value == color
    ensures r.Err? ==> r.error == InvalidColor
    ensures r.Ok? ==> |color| >= 7 && color[0] == '#'
    ensures |color| < 7 ==> r.Err?
  {
    if HexColourPrefix(color) then Ok(color) else Err(InvalidColor)
  }

  /** The validator accepts exactly the texts that begin with `#` and six hex digits. */
  lemma ValidateColorExactly(color: string)
    ensures ValidateColor(color).Ok? <==> HexColourPrefix(color)
  {
  }

  /** Text after the six digits is not looked at: a valid colour stays valid whatever follows it. */
  lemma ValidateColorIgnoresTail(color: string, tail: string)
    requires ValidateColor(color).Ok?
    ensures ValidateColor(color + tail) == Ok(color + tail)
  {
    assert forall i :: 0 <= i < |color| ==> (color + tail)[i] == color[i];
  }

  /** Every colour of the legacy table passes the validator. */
  lemma TableColoursValid()
    ensures forall k :: 0 <= k < |Colours| ==> ValidateColor(Colours[k].1).Ok?
  {
    forall k | 0 <= k < |Colours|
      ensures HexColourPrefix(Colours[k].1)
    {
    }
  }

  // ---------------------------------------------------------------------
  // DynamicFieldsModelSerializer
  // ---------------------------------------------------------------------

  /** `__init__` with the `fields` argument: every declared field not
      requested is dropped, the others keep their order. */
  function PruneFields(fields: seq<string>, requested: Option<seq<string>>): (r: seq<string>)
    ensures requested.None? ==> r == fields
    ensures requested.Some? ==> forall f :: f in r <==> f in fields && f in requested.value
    ensures IsSubsequence(r, fields)
  {
    match requested
    case None => SubsequenceRefl(fields); fields
    case Some(allowed) => Keep(fields, allowed)
  }

  /** The elements of `fields` that are in `allowed`, in order. */
  function Keep(fields: seq<string>, allowed: seq<string>): (r: seq<string>)
    ensures forall f :: f in r <==> f in fields && f in allowed
    ensures IsSubsequence(r, fields)
  {
    if |fields| == 0 then []
    else
      var rest := Keep(fields[1..], allowed);
      assert [fields[0]] + fields[1..] == fields;
      if fields[0] in allowed then
        assert ([fields[0]] + rest)[1..] == rest;
        [fields[0]] + rest
      else
        SkipHead(fields[0], rest, fields[1..]);
        rest
  }

  /** Requesting the same fields again changes nothing. */
  lemma {:induction false} PruneIdempotent(fields: seq<string>, requested: Option<seq<string>>)
    ensures PruneFields(PruneFields(fields, requested), requested) == PruneFields(fields, requested)
  {
    if requested.Some? {
      KeepIdempotent(fields, requested.value);
    }
  }

  lemma {:induction false} KeepIdempotent(fields: seq<string>, allowed: seq<string>)
    ensures Keep(Keep(fields, allowed), allowed) == Keep(fields, allowed)
  {
    if |fields| > 0 {
      KeepIdempotent(fields[1..], allowed);
      var rest := Keep(fields[1..], allowed);
      if fields[0] in allowed {
        assert ([fields[0]] + rest)[1..] == rest;
      }
    }
  }

  /** Requesting every declared field keeps the field list as it is. */
  lemma {:induction false} PruneAllRequested(fields: seq<string>, allowed: seq<string>)
    requires forall f :: f in fields ==> f in allowed
    ensures PruneFields(fields, Some(allowed)) == fields
  {
    if |fields| > 0 {
      PruneAllRequested(fields[1..], allowed);
      assert [fields[0]] + fields[1..] == fields;
    }
  }

  // ---------------------------------------------------------------------
  // Id-list validation
  // ---------------------------------------------------------------------

  function SetOf(ids: seq<int>): (r: set<int>)
    ensures forall x :: x in r <==> x in ids
  {
    set x | x in ids
  }

  predicate Distinct(ids: seq<int>) {
    forall i, j :: 0 <= i < j < |ids| ==> ids[i] != ids[j]
  }

  /** `Model.objects.filter(id__in=ids).count() == len(ids)`: the query
      counts each existing row once, however often its id is listed. */
  predicate CountMatches(ids: seq<int>, existing: set<int>) {
    |SetOf(ids) * existing| == |ids|
  }

  /** A list has as many distinct elements as entries exactly when it has no repeats. */
  lemma {:induction false} SetOfSize(ids: seq<int>)
    ensures |SetOf(ids)| <= |ids|
    ensures |SetOf(ids)| == |ids| <==> Distinct(ids)
  {
    if |ids| > 0 {
      var tail := ids[1..];
      SetOfSize(tail);
      assert SetOf(ids) == {ids[0]} + SetOf(tail);
      if ids[0] in tail {
        assert SetOf(ids) == SetOf(tail);
        var j :| 0 <= j < |tail| && tail[j] == ids[0];
        assert ids[j + 1] == ids[0];
      } else {
        assert |SetOf(ids)| == |SetOf(tail)| + 1;
        if Distinct(tail) {
          forall i, j | 0 <= i < j < |ids|
            ensures ids[i] != ids[j]
          {
            if i > 0 {
              assert ids[i] == tail[i - 1] && ids[j] == tail[j - 1];
            } else {
              assert ids[j] == tail[j - 1];
            }
          }
        }
        if Distinct(ids) {
          forall i, j | 0 <= i < j < |tail|
            ensures tail[i] != tail[j]
          {
            assert tail[i] == ids[i + 1] && tail[j] == ids[j + 1];
          }
        }
      }
    }
  }

  /** A subset is as large as its superset only when they are equal. */
  lemma SubsetSize(a: set<int>, b: set<int>)
    requires a <= b
    ensures |a| <= |b|
    ensures |a| == |b| ==> a == b
  {
    assert b == a + (b - a);
    assert |b| == |a| + |b - a|;
  }

  /** The count test accepts a list exactly when every id exists and none is repeated. */
  lemma CountMatchesIff(ids: seq<int>, existing: set<int>)
    ensures CountMatches(ids, existing)
      <==> (forall i :: 0 <= i < |ids| ==> ids[i] in existing) && Distinct(ids)
  {
    var s := SetOf(ids);
    SetOfSize(ids);
    SubsetSize(s * existing, s);
    if CountMatches(ids, existing) {
      forall i | 0 <= i < |ids|
        ensures ids[i] in existing
      {
        assert ids[i] in s;
      }
    }
    if forall i :: 0 <= i < |ids| ==> ids[i] in existing {
      assert s * existing == s;
    }
  }

  function IntsOf(items: seq<Datum>): (r: seq<int>)
    requires forall k :: 0 <= k < |items| ==> items[k].DInt?
    ensures |r| == |items| && forall k :: 0 <= k < |items| ==> items[k] == DInt(r[k])
  {
    seq(|items|, k requires 0 <= k < |items| => items[k].i)
  }

  /** `_validate_document_id_list` (and the tag and task variants, which
      differ only in the model queried and the name): a list of plain
      integers (`type(i) == int` refuses `True`) whose ids all exist, with
      none repeated. */
  function ValidateIdList(value: Datum, existing: set<int>, name: string): (r: Result<seq<int>, ValidationError>)
    ensures !value.DList? ==> r == Err(BadIdList(NotAList, name))
    ensures value.DList? && (exists k :: 0 <= k < |value.items| && !value.items[k].DInt?)
      ==> r == Err(BadIdList(NotIntegers, name))
    ensures r.Err? ==> r.error.BadIdList? && r.error.name == name
    ensures r.Ok? ==> (value.DList? && |r.value| == |value.items|
      && forall k :: 0 <= k < |value.items| ==> value.items[k] == DInt(r.value[k]))
    ensures r.Ok? <==>
      && value.DList?
      && (forall k :: 0 <= k < |value.items| ==> value.items[k].DInt?)
      && (forall k :: 0 <= k < |value.items| ==> value.items[k].i in existing)
      && Distinct(IntsOf(value.items))
  {
    if !value.DList? then Err(BadIdList(NotAList, name))
    else if exists k :: 0 <= k < |value.items| && !value.items[k].DInt? then Err(BadIdList(NotIntegers, name))
    else
      var ids := IntsOf(value.items);
      CountMatchesIff(ids, existing);
      if CountMatches(ids, existing) then Ok(ids) else Err(BadIdList(MissingOrRepeated, name))
  }

  /** `SetPermissionsMixin._validate_user_ids` / `_validate_group_ids`: no
      list selects nobody; otherwise every id must exist and none repeat,
      and the selected rows are returned. */
  function ValidatePermissionIds(ids: Option<seq<int>>, existing: set<int>, name: string): (r: Result<set<int>, ValidationError>)
    ensures ids.None? ==> r == Ok({})
    ensures r.Err? ==> r.error == BadIdList(MissingOrRepeated, name)
    ensures ids.Some? ==> (r.Ok? <==> (forall i :: 0 <= i < |ids.value| ==> ids.value[i] in existing) && Distinct(ids.value))
    ensures ids.Some? && r.Ok? ==> forall x :: x in r.value <==> x in ids.value
  {
    match ids
    case None => Ok({})
    case Some(l) =>
      CountMatchesIff(l, existing);
      var rows := SetOf(l) * existing;
      if |rows| == |l| then Ok(rows) else Err(BadIdList(MissingOrRepeated, name))
  }

  // ---------------------------------------------------------------------
  // DocumentSerializer.to_representation
  // ---------------------------------------------------------------------

  /** How many characters of the content a truncated representation keeps. */
  const TruncatedContentLength := 550

  /** Slicing the missing content (`None[0:550]`) raises `TypeError`. */
  datatype RepresentError = ContentNotSubscriptable

  /** The `content` entry of the representation, `None` when `fields` pruned
      it: `doc.get("content")[0:550]` under `truncate_content`, untouched
      otherwise. */
  function RepresentContent(content: Option<string>, truncate: bool): (r: Result<Option<string>, RepresentError>)
    ensures !truncate ==> r == Ok(content)
    ensures truncate ==> (r.Err? <==> content.None?)
    ensures truncate && r.Ok? ==> r.value.Some? && |r.value.value| <= TruncatedContentLength && r.value.value <= content.value
    ensures truncate && r.Ok? ==>
      |r.value.value| == if |content.value| < TruncatedContentLength then |content.value| else TruncatedContentLength
  {
    match content
    case None => if truncate then Err(ContentNotSubscriptable) else Ok(None)
    case Some(c) =>
      if truncate && |c| > TruncatedContentLength then Ok(Some(c[..TruncatedContentLength])) else Ok(Some(c))
  }

  /** Truncating an already truncated content changes nothing, and short content is never cut. */
  lemma TruncationStable(content: string)
    ensures var once := RepresentContent(Some(content), true);
      once.Ok? && RepresentContent(once.value, true) == once
    ensures |content| <= TruncatedContentLength ==> RepresentContent(Some(content), true) == Ok(Some(content))
  {
  }

  /** Truncation fails exactly when `fields` was given and left `content` out. */
  lemma TruncatePrunedContent(fields: seq<string>, requested: Option<seq<string>>, content: string)
    requires "content" in fields
    ensures var kept := "content" in PruneFields(fields, requested);
      RepresentContent(if kept then Some(content) else None, true).Err? <==>
        requested.Some? && "content" !in requested.value
  {
  }

  // ---------------------------------------------------------------------
  // TasksViewSerializer.get_related_document
  // ---------------------------------------------------------------------

  /** Celery's `states.SUCCESS`. */
  const SuccessState := "SUCCESS"
  const RelatedPrefix := "New document id "
  const RelatedSuffix := " created"

  /** The length of the run of digits starting at `i`. */
  function DigitRun(s: string, i: nat): (n: nat)
    requires i <= |s|
    ensures i + n <= |s|
    ensures forall k :: i <= k < i + n ==> IsDigit(s[k])
    ensures i + n < |s| ==> !IsDigit(s[i + n])
    decreases |s| - i
  {
    if i < |s| && IsDigit(s[i]) then 1 + DigitRun(s, i + 1) else 0
  }

  /** `New document id (\d+) created` matches at `p`. The digit run must be
      maximal: a shorter one would be followed by a digit, not the space. */
  predicate RelatedAt(s: string, p: nat) {
    && MatchesAt(s, p, RelatedPrefix, false)
    && var n := DigitRun(s, p + |RelatedPrefix|);
    && n > 0
    && MatchesAt(s, p + |RelatedPrefix| + n, RelatedSuffix, false)
  }

  /** The group `(\d+)` of a match at `p`. */
  function Captured(s: string, p: nat): (r: string)
    requires RelatedAt(s, p)
    ensures |r| > 0 && AllDigits(r)
  {
    var start := p + |RelatedPrefix|;
    s[start..start + DigitRun(s, start)]
  }

  /** `re.search`: the leftmost position at or after `p` where the pattern matches. */
  function FindRelated(s: string, p: nat): (r: Option<nat>)
    requires p <= |s|
    ensures r.Some? ==> p <= r.value <= |s| && RelatedAt(s, r.value)
    ensures r.Some? ==> forall q :: p <= q < r.value ==> !RelatedAt(s, q)
    ensures r.None? ==> forall q :: p <= q <= |s| ==> !RelatedAt(s, q)
    decreases |s| - p
  {
    if RelatedAt(s, p) then Some(p)
    else if p == |s| then None
    else FindRelated(s, p + 1)
  }

  /** `get_related_document`: the captured id of a successful task's result,
      and `None` for any other status, a missing result, or no match. */
  function GetRelatedDocument(status: Option<string>, result: Option<string>): (r: Option<string>)
    ensures status != Some(SuccessState) || result.None? ==> r.None?
    ensures r.Some? ==> |r.value| > 0 && AllDigits(r.value)
    ensures status == Some(SuccessState) && result.Some?
      ==> (r.Some? <==> exists q :: 0 <= q <= |result.value| && RelatedAt(result.value, q))
    ensures r.Some? ==> exists q :: (0 <= q <= |result.value| && RelatedAt(result.value, q)
      && (forall q' :: 0 <= q' < q ==> !RelatedAt(result.value, q'))
      && r.value == Captured(result.value, q))
  {
    if status == Some(SuccessState) && result.Some? then
      match FindRelated(result.value, 0)
      case None => None
      case Some(q) => Some(Captured(result.value, q))
    else None
  }

  /** A digit run followed by a non-digit is exactly that run. */
  lemma {:induction false} DigitRunOf(s: string, i: nat, d: string)
    requires i + |d| < |s| && s[i..i + |d|] == d && AllDigits(d) && !IsDigit(s[i + |d|])
    ensures DigitRun(s, i) == |d|
    decreases |d|
  {
    if |d| > 0 {
      assert s[i] == d[0];
      assert s[i + 1..i + 1 + |d[1..]|] == d[1..];
      DigitRunOf(s, i + 1, d[1..]);
    }
  }

  lemma MatchesAtSlice(s: string, i: nat, p: string)
    requires i + |p| <= |s| && s[i..i + |p|] == p
    ensures MatchesAt(s, i, p, false)
  {
    forall k | 0 <= k < |p|
      ensures s[i + k] == p[k]
    {
      assert s[i..i + |p|][k] == s[i + k];
    }
  }

  /** The message the consumer leaves in a successful task's result yields
      the new document's id, which reads back as that number. */
  lemma RelatedOfConsumerMessage(id: nat, tail: string)
    ensures var msg := RelatedPrefix + NatToString(id) + RelatedSuffix + tail;
      && GetRelatedDocument(Some(SuccessState), Some(msg)) == Some(NatToString(id))
      && ParseInt(GetRelatedDocument(Some(SuccessState), Some(msg)).value) == Some(id)
  {
    var digits := NatToString(id);
    var msg := RelatedPrefix + digits + RelatedSuffix + tail;
    var start := |RelatedPrefix|;
    var end := start + |digits|;
    assert msg[..start] == RelatedPrefix;
    assert msg[start..end] == digits;
    assert msg[end..end + |RelatedSuffix|] == RelatedSuffix;
    MatchesAtSlice(msg, 0, RelatedPrefix);
    MatchesAtSlice(msg, end, RelatedSuffix);
    assert msg[end] == RelatedSuffix[0];
    DigitRunOf(msg, start, digits);
    assert RelatedAt(msg, 0);
    assert Captured(msg, 0) == digits;
    ParseIntOfIntToString(id);
  }
}
