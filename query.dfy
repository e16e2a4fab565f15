/** GET /items in server.js: the exact `type` filter, the case-insensitive `q` filter over
    the name and the tags, the total, and the `[offset, offset + limit)` page. */
module Query {
  import opened Js
  import opened JsStrings
  import opened JsNumber
  import opened Json
  import opened Items

  // ---------------------------------------------------------------- the type filter

  /** `i.type === type`: strict equality, so only a string type can match. */
  predicate TypeIs(item: Item, t: string) {
    Get(item, "type") == Some(JStr(t))
  }

  /** `if (type) items = items.filter(...)`: an absent or empty `type` keeps every record. */
  function TypeFiltered(items: seq<Item>, t: Option<string>): (r: seq<Item>)
    ensures !Js.Truthy(t) ==> r == items
    ensures Js.Truthy(t) ==> r == Filter(items, (i: Item) => TypeIs(i, t.value))
  {
    if Js.Truthy(t) then Filter(items, (i: Item) => TypeIs(i, t.value)) else items
  }

  // ---------------------------------------------------------------- the q filter

  /** `tags.some((t) => t.toLowerCase().includes(needle))`: the tags are looked at in order
      until one matches, and a tag that is not a string throws when it is reached. */
  function SomeTagMatches(tags: seq<JVal>, needle: string): (r: Try<bool>)
    ensures r == Ok(true) <==> MatchReached(tags, needle)
    ensures r.Throws? <==> ThrowReached(tags, needle)
    decreases |tags|
  {
    if tags == [] then Ok(false)
    else if !tags[0].JStr? then
      assert ThrowReached(tags, needle) && !MatchReached(tags, needle);
      Throws
    else if Contains(ToLower(tags[0].s), needle) then
      assert MatchReached(tags, needle) && !ThrowReached(tags, needle);
      Ok(true)
    else
      var r := SomeTagMatches(tags[1..], needle);
      MatchReachedStep(tags, needle);
      ThrowReachedStep(tags, needle);
      r
  }

  /** Some tag matches, and every tag before it is a string. */
  predicate MatchReached(tags: seq<JVal>, needle: string) {
    exists k :: 0 <= k < |tags| && tags[k].JStr? && Contains(ToLower(tags[k].s), needle)
      && forall j :: 0 <= j < k ==> tags[j].JStr?
  }

  /** Some tag is not a string, and every tag before it is a string that does not match. */
  predicate ThrowReached(tags: seq<JVal>, needle: string) {
    exists k :: 0 <= k < |tags| && !tags[k].JStr?
      && forall j :: 0 <= j < k ==> tags[j].JStr? && !Contains(ToLower(tags[j].s), needle)
  }

  /** Past a first tag that is a string and does not match, whether a match is reached is
      decided by the rest. */
  lemma MatchReachedStep(tags: seq<JVal>, needle: string)
    requires tags != [] && tags[0].JStr? && !Contains(ToLower(tags[0].s), needle)
    ensures MatchReached(tags, needle) <==> MatchReached(tags[1..], needle)
  {
    var t := tags[1..];
    if MatchReached(tags, needle) {
      var k :| 0 <= k < |tags| && tags[k].JStr? && Contains(ToLower(tags[k].s), needle)
        && forall j :: 0 <= j < k ==> tags[j].JStr?;
      assert k >= 1;
      assert t[k - 1] == tags[k];
      assert forall j :: 0 <= j < k - 1 ==> t[j] == tags[j + 1];
    }
    if MatchReached(t, needle) {
      var k :| 0 <= k < |t| && t[k].JStr? && Contains(ToLower(t[k].s), needle)
        && forall j :: 0 <= j < k ==> t[j].JStr?;
      assert tags[k + 1] == t[k];
      assert forall j :: 1 <= j < k + 1 ==> tags[j] == t[j - 1];
    }
  }

  /** Past a first tag that is a string and does not match, whether a throw is reached is
      decided by the rest. */
  lemma ThrowReachedStep(tags: seq<JVal>, needle: string)
    requires tags != [] && tags[0].JStr? && !Contains(ToLower(tags[0].s), needle)
    ensures ThrowReached(tags, needle) <==> ThrowReached(tags[1..], needle)
  {
    var t := tags[1..];
    if ThrowReached(tags, needle) {
      var k :| 0 <= k < |tags| && !tags[k].JStr?
        && forall j :: 0 <= j < k ==> tags[j].JStr? && !Contains(ToLower(tags[j].s), needle);
      assert k >= 1;
      assert t[k - 1] == tags[k];
      assert forall j :: 0 <= j < k - 1 ==> t[j] == tags[j + 1];
    }
    if ThrowReached(t, needle) {
      var k :| 0 <= k < |t| && !t[k].JStr?
        && forall j :: 0 <= j < k ==> t[j].JStr? && !Contains(ToLower(t[j].s), needle);
      assert tags[k + 1] == t[k];
      assert forall j :: 1 <= j < k + 1 ==> tags[j] == t[j - 1];
    }
  }

  /** The record's name is a string, so `i.name.toLowerCase()` returns. */
  predicate HasStringName(item: Item) {
    "name" in item && item["name"].JStr?
  }

  /** The lower-cased name contains the needle. */
  predicate NameContains(item: Item, needle: string)
    requires HasStringName(item)
  {
    Contains(ToLower(item["name"].s), needle)
  }

  /** `Array.isArray(i.tags)`. */
  predicate HasTagArray(item: Item) {
    "tags" in item && item["tags"].JArr?
  }

  /** The `q` predicate for one record: `i.name.toLowerCase()` throws unless the name is a
      string, and the tags are consulted only when the name does not match. */
  function ItemMatches(item: Item, needle: string): (r: Try<bool>)
    ensures !HasStringName(item) ==> r.Throws?
    ensures HasStringName(item) && NameContains(item, needle) ==> r == Ok(true)
    ensures r == Ok(true) <==>
      HasStringName(item)
      && (NameContains(item, needle) || (HasTagArray(item) && MatchReached(item["tags"].elems, needle)))
    ensures r.Throws? <==>
      || !HasStringName(item)
      || (!NameContains(item, needle) && HasTagArray(item) && ThrowReached(item["tags"].elems, needle))
    ensures HasStringName(item) && !NameContains(item, needle) && !HasTagArray(item) ==> r == Ok(false)
  {
    match Get(item, "name")
    case Some(JStr(n)) =>
      if Contains(ToLower(n), needle) then Ok(true)
      else
        (match Get(item, "tags")
         case Some(JArr(ts)) => SomeTagMatches(ts, needle)
         case _ => Ok(false))
    case _ => Throws
  }

  /** The records the `q` predicate accepts, all predicates having returned. */
  predicate Accepted(item: Item, needle: string) {
    ItemMatches(item, needle) == Ok(true)
  }

  /** `items.filter(...)` with the `q` predicate: the first record whose predicate throws
      aborts the whole request; otherwise the accepted records, in order. */
  function QFiltered(items: seq<Item>, needle: string): (r: Try<seq<Item>>)
    ensures r.Throws? <==> exists i :: 0 <= i < |items| && ItemMatches(items[i], needle).Throws?
    ensures r.Ok? ==> r.value == Filter(items, (i: Item) => Accepted(i, needle))
    decreases |items|
  {
    if items == [] then Ok([])
    else
      var rest := QFiltered(items[1..], needle);
      assert forall j :: 1 <= j < |items| ==> items[1..][j - 1] == items[j];
      match ItemMatches(items[0], needle)
      case Throws => Throws
      case Ok(b) =>
        match rest
        case Throws => Throws
        case Ok(tail) => Ok(if b then [items[0]] + tail else tail)
  }

  // ---------------------------------------------------------------- limit, offset and the page

  /** `parseInt(raw ?? d, 10)`; `None` is NaN. */
  function ParseQueryInt(raw: Option<string>, d: string): Option<int> {
    ParseInt(if raw.Some? then raw.value else d)
  }

  /** `Math.min(parseInt(limit ?? "50", 10), 200)`; NaN stays NaN, and nothing bounds it below. */
  function Limit(raw: Option<string>): (r: Option<int>)
    ensures r.Some? ==> r.value <= 200
    ensures raw.None? ==> r == Some(50)
    ensures raw.Some? ==> (r.None? <==> ParseInt(raw.value).None?)
    ensures raw.Some? && r.Some? && ParseInt(raw.value).value <= 200 ==> r.value == ParseInt(raw.value).value
    ensures raw.Some? && r.Some? && ParseInt(raw.value).value > 200 ==> r.value == 200
  {
    assert ParseInt("50") == Some(50) by {
      assert NatToString(50) == "50";
      ParseIntNat(50);
    }
    match ParseQueryInt(raw, "50")
    case None => None
    case Some(v) => Some(if v < 200 then v else 200)
  }

  /** `Math.max(parseInt(offset ?? "0", 10), 0)`. */
  function Offset(raw: Option<string>): (r: Option<int>)
    ensures r.Some? ==> r.value >= 0
    ensures raw.None? ==> r == Some(0)
    ensures raw.Some? ==> (r.None? <==> ParseInt(raw.value).None?)
    ensures raw.Some? && r.Some? && ParseInt(raw.value).value >= 0 ==> r.value == ParseInt(raw.value).value
    ensures raw.Some? && r.Some? && ParseInt(raw.value).value < 0 ==> r.value == 0
  {
    assert ParseInt("0") == Some(0) by {
      assert NatToString(0) == "0";
      ParseIntNat(0);
    }
    match ParseQueryInt(raw, "0")
    case None => None
    case Some(v) => Some(if v > 0 then v else 0)
  }

  /** A slice bound: `slice` reads NaN as 0. */
  function Bound(x: Option<int>): int {
    if x.Some? then x.value else 0
  }

  /** `offset + limit`, NaN when either is NaN. */
  function AddBounds(a: Option<int>, b: Option<int>): Option<int> {
    if a.Some? && b.Some? then Some(a.value + b.value) else None
  }

  /** The answer of GET /items: `{ total, items: paged }`, or the exception of the q filter. */
  datatype Listing = Listing(total: nat, page: seq<Item>)

  /** The records both filters keep. */
  function Filtered(items: seq<Item>, q: Option<string>, t: Option<string>): Try<seq<Item>> {
    var typed := TypeFiltered(items, t);
    if Js.Truthy(q) then QFiltered(typed, ToLower(q.value)) else Ok(typed)
  }

  /** `items.slice(offset, offset + limit)` for given limit and offset values. */
  function Page(f: seq<Item>, limit: Option<int>, offset: Option<int>): seq<Item> {
    Slice(f, Bound(offset), Bound(AddBounds(offset, limit)))
  }

  /** GET /items as written. */
  function ListItems(items: seq<Item>, q: Option<string>, t: Option<string>,
                     limitRaw: Option<string>, offsetRaw: Option<string>): (r: Try<Listing>)
    ensures r.Throws? <==> Filtered(items, q, t).Throws?
    ensures r.Ok? ==> r.value.total == |Filtered(items, q, t).value|
  {
    match Filtered(items, q, t)
    case Throws => Throws
    case Ok(f) => Ok(Listing(|f|, Page(f, Limit(limitRaw), Offset(offsetRaw))))
  }

  // ---------------------------------------------------------------- properties of the listing

  /** Every listed record is a stored record that passes both filters. */
  lemma ListedRecordsPassFilters(items: seq<Item>, q: Option<string>, t: Option<string>,
                                 limitRaw: Option<string>, offsetRaw: Option<string>)
    requires ListItems(items, q, t, limitRaw, offsetRaw).Ok?
    ensures var l := ListItems(items, q, t, limitRaw, offsetRaw).value;
      forall k :: 0 <= k < |l.page| ==>
        && l.page[k] in items
        && (Js.Truthy(t) ==> TypeIs(l.page[k], t.value))
        && (Js.Truthy(q) ==> Accepted(l.page[k], ToLower(q.value)))
  {
    var f := Filtered(items, q, t).value;
    var page := ListItems(items, q, t, limitRaw, offsetRaw).value.page;
    assert page == Page(f, Limit(limitRaw), Offset(offsetRaw));
    SliceWithin(f, Bound(Offset(offsetRaw)), Bound(AddBounds(Offset(offsetRaw), Limit(limitRaw))));
    FilteredRecordsPass(items, q, t);
    forall k | 0 <= k < |page|
      ensures page[k] in items
      ensures Js.Truthy(t) ==> TypeIs(page[k], t.value)
      ensures Js.Truthy(q) ==> Accepted(page[k], ToLower(q.value))
    {
      assert page[k] in page;
    }
  }

  /** The filtered records are stored records that pass both filters. */
  lemma FilteredRecordsPass(items: seq<Item>, q: Option<string>, t: Option<string>)
    requires Filtered(items, q, t).Ok?
    ensures forall x :: x in Filtered(items, q, t).value ==>
      && x in items
      && (Js.Truthy(t) ==> TypeIs(x, t.value))
      && (Js.Truthy(q) ==> Accepted(x, ToLower(q.value)))
  {
    var typed := TypeFiltered(items, t);
    var f := Filtered(items, q, t).value;
    forall x | x in f
      ensures x in items
      ensures Js.Truthy(t) ==> TypeIs(x, t.value)
      ensures Js.Truthy(q) ==> Accepted(x, ToLower(q.value))
    {
      var fi :| 0 <= fi < |f| && f[fi] == x;
      assert x in typed;
      var ti :| 0 <= ti < |typed| && typed[ti] == x;
    }
  }

  /** Every stored record that passes both filters is among the filtered records the total
      counts. */
  lemma PassingRecordsAreCounted(items: seq<Item>, q: Option<string>, t: Option<string>, i: nat)
    requires Filtered(items, q, t).Ok? && i < |items|
    requires Js.Truthy(t) ==> TypeIs(items[i], t.value)
    requires Js.Truthy(q) ==> Accepted(items[i], ToLower(q.value))
    ensures items[i] in Filtered(items, q, t).value
  {
    var typed := TypeFiltered(items, t);
    assert items[i] in typed;
    if Js.Truthy(q) {
      var k :| 0 <= k < |typed| && typed[k] == items[i];
    }
  }

  /** The run of at most `lim` records of `f` that starts at `off`. */
  function Window(f: seq<Item>, lim: nat, off: nat): (r: seq<Item>)
    ensures |r| <= lim
    ensures off >= |f| ==> r == []
    ensures forall k :: 0 <= k < |r| ==> off + k < |f| && r[k] == f[off + k]
  {
    if off >= |f| then [] else f[off..if off + lim <= |f| then off + lim else |f|]
  }

  /** With a limit that parses to a non-negative number the page is the filtered records
      from `offset` on, at most `limit` of them, and never more than 200. */
  lemma PageOfWellFormedLimit(f: seq<Item>, limitRaw: Option<string>, offsetRaw: Option<string>)
    requires Limit(limitRaw).Some? && Limit(limitRaw).value >= 0 && Offset(offsetRaw).Some?
    ensures Limit(limitRaw).value <= 200
    ensures Page(f, Limit(limitRaw), Offset(offsetRaw)) == Window(f, Limit(limitRaw).value, Offset(offsetRaw).value)
  {
    ClampedPage(f, Limit(limitRaw), Offset(offsetRaw));
  }

  /** Without limit and offset the page is the first 50 filtered records. */
  lemma DefaultPage(f: seq<Item>)
    ensures Page(f, Limit(None), Offset(None)) == f[..if |f| < 50 then |f| else 50]
  {
  }

  /** A limit or offset that is not a number gives an empty page (the total is still set). */
  lemma NaNBoundsGiveEmptyPage(f: seq<Item>, limitRaw: Option<string>, offsetRaw: Option<string>)
    requires Limit(limitRaw).None? || Offset(offsetRaw).None?
    ensures Page(f, Limit(limitRaw), Offset(offsetRaw)) == []
  {
  }

  /** `limit=-1` is not clamped: the end of the slice counts from the back, so the page is all
      filtered records but the last, which exceeds the cap of 200 once there are 202 or more. */
  lemma NegativeLimitPassesCap(f: seq<Item>)
    requires |f| >= 1
    ensures ParseInt("-1") == Some(-1)
    ensures Page(f, Limit(Some("-1")), Offset(None)) == f[..|f| - 1]
    ensures |f| >= 202 ==> |Page(f, Limit(Some("-1")), Offset(None))| > 200
  {
    var t := "-1";
    assert !IsSpace(t[0]);
    assert TrimStart(t) == t;
    assert t[1..] == "1";
    assert LeadingDigits("1") == "1" by {
      assert LeadingDigits("1"[1..]) == "";
    }
    assert DigitsValue("1") == 1 by {
      assert "1"[..0] == "";
    }
  }

  // ---------------------------------------------------------------- the intended limit

  /** The limit with the lower clamp the cap evidently intends: `[0, 200]`. */
  function ClampedLimit(raw: Option<string>): (r: Option<int>)
    ensures r.Some? ==> 0 <= r.value <= 200
    ensures raw.None? ==> r == Some(50)
    ensures raw.Some? ==> (r.None? <==> ParseInt(raw.value).None?)
    ensures raw.Some? && r.Some? && 0 <= ParseInt(raw.value).value <= 200 ==> r.value == ParseInt(raw.value).value
    ensures raw.Some? && r.Some? && ParseInt(raw.value).value < 0 ==> r.value == 0
    ensures raw.Some? && r.Some? && ParseInt(raw.value).value > 200 ==> r.value == 200
  {
    match Limit(raw)
    case None => None
    case Some(v) => Some(if v < 0 then 0 else v)
  }

  /** GET /items with the clamped limit. */
  function ListItemsClamped(items: seq<Item>, q: Option<string>, t: Option<string>,
                            limitRaw: Option<string>, offsetRaw: Option<string>): (r: Try<Listing>)
    ensures r.Throws? <==> Filtered(items, q, t).Throws?
    ensures r.Ok? ==> r.value.total == |Filtered(items, q, t).value|
  {
    match Filtered(items, q, t)
    case Throws => Throws
    case Ok(f) => Ok(Listing(|f|, Page(f, ClampedLimit(limitRaw), Offset(offsetRaw))))
  }

  /** With the clamp every page is the run of filtered records from the offset, of at most
      `limit` and at most 200 records, whatever the query says. */
  lemma ClampedPageBounded(items: seq<Item>, q: Option<string>, t: Option<string>,
                           limitRaw: Option<string>, offsetRaw: Option<string>)
    requires ListItemsClamped(items, q, t, limitRaw, offsetRaw).Ok?
    ensures |ListItemsClamped(items, q, t, limitRaw, offsetRaw).value.page| <= 200
    ensures ClampedLimit(limitRaw).Some? ==>
      |ListItemsClamped(items, q, t, limitRaw, offsetRaw).value.page| <= ClampedLimit(limitRaw).value
    ensures ClampedLimit(limitRaw).Some? && Offset(offsetRaw).Some? ==>
      ListItemsClamped(items, q, t, limitRaw, offsetRaw).value.page
        == Window(Filtered(items, q, t).value, ClampedLimit(limitRaw).value, Offset(offsetRaw).value)
  {
    var f := Filtered(items, q, t).value;
    assert ListItemsClamped(items, q, t, limitRaw, offsetRaw).value.page
      == Page(f, ClampedLimit(limitRaw), Offset(offsetRaw));
    ClampedPage(f, ClampedLimit(limitRaw), Offset(offsetRaw));
  }

  lemma ClampedPage(f: seq<Item>, limit: Option<int>, offset: Option<int>)
    requires limit.Some? ==> 0 <= limit.value <= 200
    requires offset.Some? ==> offset.value >= 0
    ensures |Page(f, limit, offset)| <= 200
    ensures limit.Some? ==> |Page(f, limit, offset)| <= limit.value
    ensures limit.Some? && offset.Some? ==> Page(f, limit, offset) == Window(f, limit.value, offset.value)
  {
  }

  /** The clamp changes nothing for a limit that is already non-negative. */
  lemma ClampAgreesOnWellFormedLimit(items: seq<Item>, q: Option<string>, t: Option<string>,
                                     limitRaw: Option<string>, offsetRaw: Option<string>)
    requires Limit(limitRaw).Some? ==> Limit(limitRaw).value >= 0
    ensures ListItemsClamped(items, q, t, limitRaw, offsetRaw) == ListItems(items, q, t, limitRaw, offsetRaw)
  {
  }
}
