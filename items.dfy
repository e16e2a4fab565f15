/** The pure part of the Item Store in server.js: numeric identity of records, id
    allocation, path-id parsing and lookup, payload validation, and the records that
    create, replace, patch and the id migration build. */
module Items {
  import opened Js
  import opened JsStrings
  import opened JsNumber
  import opened Json

  /** A stored record and a request body are both JSON objects. */
  type Item = Obj
  type Body = Obj

  /** What a route answers, without the HTTP plumbing. */
  datatype Response =
    | Found(item: Item)         // 200 with the record
    | Created(item: Item)       // 201 with the new record
    | Updated(item: Item)       // 200 with the rewritten record
    | NoContent                 // 204
    | NotFound                  // 404
    | Invalid(message: string)  // 400 with the validation message

  // ---------------------------------------------------------------- numeric identity

  /** The id of a record as a number. `typeof i.id === "number" ? i.id : Number(i.id)` is
      `Number(i.id)` in both branches, since `Number` leaves a number alone. */
  function IdNumber(item: Item): Num {
    ToNumberOf(Get(item, "id"))
  }

  /** The lookup predicate shared by get, put, patch and delete. */
  predicate HasId(item: Item, n: int) {
    IdNumber(item) == Finite(n as real)
  }

  // ---------------------------------------------------------------- getNextId

  /** One step of the `reduce`: non-finite ids are skipped. */
  function MaxStep(m: real, item: Item): real {
    match IdNumber(item)
    case Finite(v) => if v > m then v else m
    case _ => m
  }

  /** `items.reduce(step, m)`: the largest of `m` and the finite ids. */
  function MaxId(items: seq<Item>, m: real): (r: real)
    ensures r >= m
    ensures forall i :: 0 <= i < |items| && IdNumber(items[i]).Finite? ==> IdNumber(items[i]).r <= r
    ensures r == m || exists i :: 0 <= i < |items| && IdNumber(items[i]) == Finite(r)
    decreases |items|
  {
    if items == [] then m
    else
      var r := MaxId(items[1..], MaxStep(m, items[0]));
      assert forall i :: 1 <= i < |items| ==> items[1..][i - 1] == items[i];
      r
  }

  /** getNextId: one more than the largest finite id, counting from 0. */
  function GetNextId(items: seq<Item>): (r: real)
    ensures r >= 1.0
    ensures forall i :: 0 <= i < |items| && IdNumber(items[i]).Finite? ==> IdNumber(items[i]).r < r
    ensures r == 1.0 || exists i :: 0 <= i < |items| && IdNumber(items[i]) == Finite(r - 1.0)
  {
    MaxId(items, 0.0) + 1.0
  }

  /** No record with a finite id shares the allocated id. */
  lemma NextIdIsFresh(items: seq<Item>)
    ensures forall i :: 0 <= i < |items| ==> IdNumber(items[i]) != Finite(GetNextId(items))
  {
  }

  /** When every finite id is a whole number, so is the allocated one. */
  lemma NextIdIsWhole(items: seq<Item>)
    requires forall i :: 0 <= i < |items| && IdNumber(items[i]).Finite? ==> IsWhole(IdNumber(items[i]).r)
    ensures IsWhole(GetNextId(items)) && GetNextId(items).Floor >= 1
  {
    var r := GetNextId(items);
    if r == 1.0 {
      assert r.Floor == 1;
    } else {
      var i :| 0 <= i < |items| && IdNumber(items[i]) == Finite(r - 1.0);
      assert IsWhole(IdNumber(items[i]).r);
      WholePlusOne(r - 1.0);
      WholeAtLeastOne(r);
    }
  }

  lemma WholeAtLeastOne(x: real)
    requires IsWhole(x) && x >= 1.0
    ensures x.Floor >= 1
  {
  }

  lemma WholePlusOne(x: real)
    requires IsWhole(x)
    ensures IsWhole(x + 1.0) && (x + 1.0).Floor == x.Floor + 1
  {
  }

  predicate IsWhole(x: real) {
    x.Floor as real == x
  }

  // ---------------------------------------------------------------- parseIdParam and lookup

  /** `Number.isInteger(Number(raw)) && n > 0`. */
  ghost predicate IsIdParam(raw: string, n: int) {
    n > 0 && StringToNumber(raw) == Finite(n as real)
  }

  /** parseIdParam: the positive whole number `raw` denotes, or `None` (the 404 path). */
  function ParseIdParam(raw: string): (r: Option<int>)
    ensures forall n :: IsIdParam(raw, n) <==> r == Some(n)
    ensures r.Some? ==> r.value > 0
  {
    match StringToNumber(raw)
    case Finite(x) => if IsWhole(x) && x > 0.0 then Some(x.Floor) else None
    case _ => None
  }

  /** The path `/items/<n>` a client builds from a positive id is read back as that id. */
  lemma ParseIdParamOfNat(n: nat)
    requires n > 0
    ensures ParseIdParam(NatToString(n)) == Some(n)
  {
    NatToStringToNumber(n);
    assert IsIdParam(NatToString(n), n);
  }

  /** `items.findIndex(...)`: the first record with id `n`. */
  function FindIndex(items: seq<Item>, n: int): (r: Option<nat>)
    ensures r.Some? ==>
      r.value < |items| && HasId(items[r.value], n) && forall j :: 0 <= j < r.value ==> !HasId(items[j], n)
    ensures r.None? ==> forall j :: 0 <= j < |items| ==> !HasId(items[j], n)
    decreases |items|
  {
    if items == [] then None
    else if HasId(items[0], n) then Some(0)
    else
      var k := FindIndex(items[1..], n);
      assert forall j :: 1 <= j < |items| ==> items[1..][j - 1] == items[j];
      if k.None? then None else Some(k.value + 1)
  }

  /** The index a path id designates: parse it, then search. */
  function Locate(items: seq<Item>, raw: string): (r: Option<nat>)
    ensures r.Some? ==> r.value < |items|
  {
    match ParseIdParam(raw)
    case None => None
    case Some(n) => FindIndex(items, n)
  }

  /** GET /items/:id. */
  function GetItem(items: seq<Item>, raw: string): (r: Response)
    ensures r.Found? || r.NotFound?
    ensures r.Found? <==> exists n :: IsIdParam(raw, n) && exists i :: 0 <= i < |items| && HasId(items[i], n)
    ensures r.Found? ==>
      exists i, n :: 0 <= i < |items| && IsIdParam(raw, n) && HasId(items[i], n) && r.item == items[i]
        && (forall j :: 0 <= j < i ==> !HasId(items[j], n))
  {
    match Locate(items, raw)
    case None => NotFound
    case Some(i) => Found(items[i])
  }

  // ---------------------------------------------------------------- validateItemInput

  const AllowedTypes: seq<string> := ["laptop", "phone", "accessory", "component", "service"]
  const Required: seq<string> := ["name", "type", "price", "in_stock"]

  const TypeMessage := "Invalid type. Allowed: laptop, phone, accessory, component, service"
  const PriceMessage := "price must be a non-negative number"
  const NameMessage := "name must be a non-empty string"
  const InStockMessage := "in_stock must be boolean"
  const TagsMessage := "tags must be an array of strings"

  function MissingMessage(k: string): string {
    "Missing required field: " + k
  }

  /** The first of `keys` that `body` lacks. */
  function FirstMissing(body: Body, keys: seq<string>): (r: Option<string>)
    ensures r.None? <==> forall i :: 0 <= i < |keys| ==> keys[i] in body
    ensures r.Some? ==>
      exists i :: 0 <= i < |keys| && keys[i] == r.value && keys[i] !in body && forall j :: 0 <= j < i ==> keys[j] in body
    decreases |keys|
  {
    if keys == [] then None
    else if keys[0] !in body then Some(keys[0])
    else
      var r := FirstMissing(body, keys[1..]);
      assert forall j :: 1 <= j < |keys| ==> keys[1..][j - 1] == keys[j];
      r
  }

  /** The first missing key is the one at the first index whose key is absent. */
  lemma FirstMissingAt(body: Body, keys: seq<string>, i: nat)
    requires i < |keys| && keys[i] !in body
    requires forall j :: 0 <= j < i ==> keys[j] in body
    ensures FirstMissing(body, keys) == Some(keys[i])
  {
    var r := FirstMissing(body, keys);
    var i' :| 0 <= i' < |keys| && keys[i'] == r.value && keys[i'] !in body
      && forall j :: 0 <= j < i' ==> keys[j] in body;
    assert i' == i;
  }

  predicate ValidType(v: JVal) { v.JStr? && v.s in AllowedTypes }
  predicate ValidPrice(v: JVal) { v.JNum? && v.n >= 0.0 }
  predicate ValidName(v: JVal) { v.JStr? && Trim(v.s) != "" }
  predicate ValidInStock(v: JVal) { v.JBool? }
  predicate ValidTags(v: JVal) { v.JArr? }

  /** validateItemInput: `None` is `null` (the body passed), `Some(m)` the first failure. */
  function ValidateItemInput(body: Body, partial: bool): (r: Option<string>)
  {
    var missing := if partial then None else FirstMissing(body, Required);
    if missing.Some? then Some(MissingMessage(missing.value))
    else if "type" in body && !ValidType(body["type"]) then Some(TypeMessage)
    else if "price" in body && !ValidPrice(body["price"]) then Some(PriceMessage)
    else if "name" in body && !ValidName(body["name"]) then Some(NameMessage)
    else if "in_stock" in body && !ValidInStock(body["in_stock"]) then Some(InStockMessage)
    else if "tags" in body && !ValidTags(body["tags"]) then Some(TagsMessage)
    else None
  }

  /** Every field the body carries has the right shape. */
  ghost predicate FieldsWellFormed(body: Body) {
    && ("type" in body ==> ValidType(body["type"]))
    && ("price" in body ==> ValidPrice(body["price"]))
    && ("name" in body ==> ValidName(body["name"]))
    && ("in_stock" in body ==> ValidInStock(body["in_stock"]))
    && ("tags" in body ==> ValidTags(body["tags"]))
  }

  /** A body passes exactly when it has the required fields (full mode only) and every
      field it carries is well formed. */
  lemma ValidateAccepts(body: Body, partial: bool)
    ensures ValidateItemInput(body, partial).None? <==>
      (!partial ==> forall k :: k in Required ==> k in body) && FieldsWellFormed(body)
  {
    if !partial && FirstMissing(body, Required).Some? {
      var i :| 0 <= i < |Required| && Required[i] !in body;
      assert Required[i] in Required;
    }
  }

  /** Full mode reports the first missing key in the order name, type, price, in_stock and
      otherwise behaves as partial mode: partial mode skips only the presence checks. */
  lemma ValidateFullIsPresenceThenPartial(body: Body)
    ensures "name" !in body ==> ValidateItemInput(body, false) == Some("Missing required field: name")
    ensures "name" in body && "type" !in body ==>
      ValidateItemInput(body, false) == Some("Missing required field: type")
    ensures "name" in body && "type" in body && "price" !in body ==>
      ValidateItemInput(body, false) == Some("Missing required field: price")
    ensures "name" in body && "type" in body && "price" in body && "in_stock" !in body ==>
      ValidateItemInput(body, false) == Some("Missing required field: in_stock")
    ensures (forall k :: k in Required ==> k in body) ==>
      ValidateItemInput(body, false) == ValidateItemInput(body, true)
  {
    var req := Required;
    assert req[0] == "name" && req[1] == "type" && req[2] == "price" && req[3] == "in_stock";
    if "name" !in body {
      FirstMissingAt(body, req, 0);
      assert MissingMessage("name") == "Missing required field: name";
    } else if "type" !in body {
      FirstMissingAt(body, req, 1);
      assert MissingMessage("type") == "Missing required field: type";
    } else if "price" !in body {
      FirstMissingAt(body, req, 2);
      assert MissingMessage("price") == "Missing required field: price";
    } else if "in_stock" !in body {
      FirstMissingAt(body, req, 3);
      assert MissingMessage("in_stock") == "Missing required field: in_stock";
    } else {
      assert forall i :: 0 <= i < |req| ==> req[i] in body;
    }
  }

  /** The checks run in the order type, price, name, in_stock, tags and the first failure wins. */
  lemma ValidateOrder(body: Body, partial: bool)
    requires !partial ==> forall k :: k in Required ==> k in body
    ensures "type" in body && !ValidType(body["type"]) ==> ValidateItemInput(body, partial) == Some(TypeMessage)
    ensures ("type" in body ==> ValidType(body["type"])) && "price" in body && !ValidPrice(body["price"]) ==>
      ValidateItemInput(body, partial) == Some(PriceMessage)
    ensures (("type" in body ==> ValidType(body["type"])) && ("price" in body ==> ValidPrice(body["price"]))
      && "name" in body && !ValidName(body["name"])) ==> ValidateItemInput(body, partial) == Some(NameMessage)
  {
    if !partial {
      forall i | 0 <= i < |Required| ensures Required[i] in body {
        assert Required[i] in Required;
      }
      assert FirstMissing(body, Required).None?;
    }
  }

  /** The elements of `tags` are never looked at. */
  lemma ValidateIgnoresTagElements(body: Body, partial: bool, xs: seq<JVal>, ys: seq<JVal>)
    ensures ValidateItemInput(body["tags" := JArr(xs)], partial) == ValidateItemInput(body["tags" := JArr(ys)], partial)
  {
  }

  /** The invalid create of the regression test: `in_stock` is spelled `inStock`, so the
      presence check fails before any field is inspected. */
  lemma ValidateRegressionBody()
    ensures ValidateItemInput(map["name" := JStr(""), "type" := JStr("unknown"), "price" := JNum(-5.0),
      "inStock" := JStr("maybe")], false) == Some("Missing required field: in_stock")
  {
    var b := map["name" := JStr(""), "type" := JStr("unknown"), "price" := JNum(-5.0), "inStock" := JStr("maybe")];
    ValidateFullIsPresenceThenPartial(b);
  }

  // ---------------------------------------------------------------- records the mutations build

  /** `Array.isArray(body.tags) ? body.tags : []`. */
  function TagsOrEmpty(body: Body): (r: JVal)
    ensures r.JArr?
    ensures "tags" in body && body["tags"].JArr? ==> r == body["tags"]
    ensures !("tags" in body && body["tags"].JArr?) ==> r == JArr([])
  {
    if "tags" in body && body["tags"].JArr? then body["tags"] else JArr([])
  }

  /** The record POST /items builds: exactly eight keys. */
  function NewItem(body: Body, id: real, now: string): Item {
    Put(Put(Put(Put(ServerFields(body, id, now), "name", Get(body, "name")), "type", Get(body, "type")),
        "price", Get(body, "price")), "in_stock", Get(body, "in_stock"))
  }

  /** The keys of a new record that the server fills in. */
  function ServerFields(body: Body, id: real, now: string): Obj {
    map["id" := JNum(id), "tags" := TagsOrEmpty(body), "createdAt" := JStr(now), "updatedAt" := JStr(now)]
  }

  const ItemKeys: set<string> := {"id", "name", "type", "price", "in_stock", "tags", "createdAt", "updatedAt"}

  /** A created record carries the allocated id, the body's four client fields, the tags or
      [] and one timestamp twice. */
  lemma NewItemFields(body: Body, id: real, now: string)
    ensures var it := NewItem(body, id, now);
      && Get(it, "id") == Some(JNum(id)) && IdNumber(it) == Finite(id)
      && Get(it, "name") == Get(body, "name") && Get(it, "type") == Get(body, "type")
      && Get(it, "price") == Get(body, "price") && Get(it, "in_stock") == Get(body, "in_stock")
      && Get(it, "tags") == Some(TagsOrEmpty(body))
      && Get(it, "createdAt") == Some(JStr(now)) && Get(it, "updatedAt") == Get(it, "createdAt")
  {
    var base := ServerFields(body, id, now);
    PutChainGets(base, "name", "type", "price", "in_stock",
      Get(body, "name"), Get(body, "type"), Get(body, "price"), Get(body, "in_stock"), "id");
    PutChainGets(base, "name", "type", "price", "in_stock",
      Get(body, "name"), Get(body, "type"), Get(body, "price"), Get(body, "in_stock"), "tags");
    PutChainGets(base, "name", "type", "price", "in_stock",
      Get(body, "name"), Get(body, "type"), Get(body, "price"), Get(body, "in_stock"), "createdAt");
    PutChainGets(base, "name", "type", "price", "in_stock",
      Get(body, "name"), Get(body, "type"), Get(body, "price"), Get(body, "in_stock"), "updatedAt");
    assert Get(base, "id") == Some(JNum(id)) && Get(base, "tags") == Some(TagsOrEmpty(body));
    assert Get(base, "createdAt") == Some(JStr(now)) && Get(base, "updatedAt") == Some(JStr(now));
  }

  /** The numeric id of a created record is the allocated id. */
  lemma NewItemIdNumber(body: Body, id: real, now: string)
    ensures IdNumber(NewItem(body, id, now)) == Finite(id)
  {
    NewItemFields(body, id, now);
  }

  /** What four Puts of distinct keys leave under each key. */
  lemma PutChainGets(base: Obj, a: string, b: string, c: string, d: string,
                     va: Option<JVal>, vb: Option<JVal>, vc: Option<JVal>, vd: Option<JVal>, other: string)
    requires a != b && a != c && a != d && b != c && b != d && c != d
    ensures var m := Put(Put(Put(Put(base, a, va), b, vb), c, vc), d, vd);
      && Get(m, a) == va && Get(m, b) == vb && Get(m, c) == vc && Get(m, d) == vd
      && (other != a && other != b && other != c && other != d ==> Get(m, other) == Get(base, other))
  {
  }

  /** A created record has no key besides the eight listed ones, and all eight when the body
      passed full validation. */
  lemma NewItemKeys(body: Body, id: real, now: string)
    ensures NewItem(body, id, now).Keys <= ItemKeys
    ensures ValidateItemInput(body, false).None? ==> NewItem(body, id, now).Keys == ItemKeys
  {
    var base := ServerFields(body, id, now);
    assert base.Keys == {"id", "tags", "createdAt", "updatedAt"};
    PutChainKeys(base, "name", "type", "price", "in_stock",
      Get(body, "name"), Get(body, "type"), Get(body, "price"), Get(body, "in_stock"));
    assert ItemKeys == base.Keys + {"name", "type", "price", "in_stock"};
    if ValidateItemInput(body, false).None? {
      ValidateAccepts(body, false);
      assert Required[0] == "name" && Required[1] == "type" && Required[2] == "price" && Required[3] == "in_stock";
      assert "name" in body && "type" in body && "price" in body && "in_stock" in body;
    }
  }

  /** The keys after four Puts: at most the added ones, and all of them when every value is defined. */
  lemma PutChainKeys(base: Obj, a: string, b: string, c: string, d: string,
                     va: Option<JVal>, vb: Option<JVal>, vc: Option<JVal>, vd: Option<JVal>)
    ensures Put(Put(Put(Put(base, a, va), b, vb), c, vc), d, vd).Keys <= base.Keys + {a, b, c, d}
    ensures va.Some? && vb.Some? && vc.Some? && vd.Some? ==>
      Put(Put(Put(Put(base, a, va), b, vb), c, vc), d, vd).Keys == base.Keys + {a, b, c, d}
  {
  }


  /** The record PUT /items/:id builds: `{...existing, name, type, price, in_stock, tags, updatedAt}`. */
  function Replaced(existing: Item, body: Body, now: string): Item {
    var r := Put(Put(Put(Put(existing, "name", Get(body, "name")), "type", Get(body, "type")),
                 "price", Get(body, "price")), "in_stock", Get(body, "in_stock"));
    r["tags" := TagsOrEmpty(body)]["updatedAt" := JStr(now)]
  }

  const ReplacedKeys: set<string> := {"name", "type", "price", "in_stock", "tags", "updatedAt"}

  /** Replace overwrites the five client fields and updatedAt, and keeps everything else,
      id and createdAt included. */
  lemma ReplacedShape(existing: Item, body: Body, now: string)
    ensures var r := Replaced(existing, body, now);
      && Get(r, "name") == Get(body, "name") && Get(r, "type") == Get(body, "type")
      && Get(r, "price") == Get(body, "price") && Get(r, "in_stock") == Get(body, "in_stock")
      && Get(r, "tags") == Some(TagsOrEmpty(body)) && Get(r, "updatedAt") == Some(JStr(now))
      && (forall k :: k !in ReplacedKeys ==> Get(r, k) == Get(existing, k))
      && IdNumber(r) == IdNumber(existing)
  {
    var r := Replaced(existing, body, now);
    assert "id" !in ReplacedKeys;
    assert Get(r, "id") == Get(existing, "id");
  }

  /** Replace keeps the numeric id. */
  lemma ReplacedIdNumber(existing: Item, body: Body, now: string)
    ensures IdNumber(Replaced(existing, body, now)) == IdNumber(existing)
  {
    ReplacedShape(existing, body, now);
  }

  /** PATCH's `tags`: the body's when it is a truthy array, else the existing ones. */
  function PatchedTags(existing: Item, body: Body): Option<JVal> {
    if "tags" in body && Json.Truthy(body["tags"]) then
      (if body["tags"].JArr? then Some(body["tags"]) else Get(existing, "tags"))
    else Get(existing, "tags")
  }

  /** The record PATCH /items/:id builds: `{...existing, ...body, tags, updatedAt}`. */
  function Patched(existing: Item, body: Body, now: string): Item {
    Put(existing + body, "tags", PatchedTags(existing, body))["updatedAt" := JStr(now)]
  }

  /** Every key of the body overrides the record (id and createdAt included) except tags and
      updatedAt; keys the body lacks keep their value; updatedAt is the new time. */
  lemma PatchedShape(existing: Item, body: Body, now: string)
    ensures var p := Patched(existing, body, now);
      && (forall k :: k in body && k != "tags" && k != "updatedAt" ==> Get(p, k) == Some(body[k]))
      && (forall k :: k !in body && k != "tags" && k != "updatedAt" ==> Get(p, k) == Get(existing, k))
      && Get(p, "tags") == PatchedTags(existing, body)
      && Get(p, "updatedAt") == Some(JStr(now))
  {
  }

  /** Once partial validation has passed, the lenient branch for a non-array `tags` cannot be
      taken: the tags are the body's when it has them and the existing ones otherwise. */
  lemma PatchedTagsAfterValidation(existing: Item, body: Body)
    requires ValidateItemInput(body, true).None?
    ensures PatchedTags(existing, body) == if "tags" in body then Some(body["tags"]) else Get(existing, "tags")
  {
  }

  /** The regression test's `{price: 2.5}` changes price and updatedAt only. */
  lemma PatchPriceOnly(existing: Item, now: string)
    ensures var p := Patched(existing, map["price" := JNum(2.5)], now);
      && Get(p, "price") == Some(JNum(2.5)) && Get(p, "updatedAt") == Some(JStr(now))
      && forall k :: k != "price" && k != "updatedAt" ==> Get(p, k) == Get(existing, k)
  {
    PatchedShape(existing, map["price" := JNum(2.5)], now);
  }

  // ---------------------------------------------------------------- id uniqueness

  /** No two records share a finite numeric id. */
  ghost predicate UniqueIds(items: seq<Item>) {
    forall i, j :: 0 <= i < |items| && 0 <= j < |items| && i != j && IdNumber(items[i]).Finite?
      ==> IdNumber(items[i]) != IdNumber(items[j])
  }

  /** Appending a record with the allocated id keeps the ids unique. */
  lemma AppendNextIdKeepsUnique(items: seq<Item>, it: Item)
    requires UniqueIds(items)
    requires IdNumber(it) == Finite(GetNextId(items))
    ensures UniqueIds(items + [it])
  {
    var s := items + [it];
    forall i, j | 0 <= i < |s| && 0 <= j < |s| && i != j && IdNumber(s[i]).Finite?
      ensures IdNumber(s[i]) != IdNumber(s[j])
    {
      if i == |items| {
        assert IdNumber(s[j]) == IdNumber(items[j]);
      } else if j == |items| {
        assert IdNumber(s[i]) == IdNumber(items[i]);
      } else {
        assert s[i] == items[i] && s[j] == items[j];
      }
    }
  }

  /** Overwriting a slot with a record of the same numeric id keeps the ids unique. */
  lemma SameIdUpdateKeepsUnique(items: seq<Item>, idx: nat, it: Item)
    requires UniqueIds(items) && idx < |items|
    requires IdNumber(it) == IdNumber(items[idx])
    ensures UniqueIds(items[idx := it])
  {
    var s := items[idx := it];
    forall i, j | 0 <= i < |s| && 0 <= j < |s| && i != j && IdNumber(s[i]).Finite?
      ensures IdNumber(s[i]) != IdNumber(s[j])
    {
      assert IdNumber(s[i]) == IdNumber(items[i]) && IdNumber(s[j]) == IdNumber(items[j]);
    }
  }

  /** `items.splice(idx, 1)`. */
  function RemoveAt(items: seq<Item>, idx: nat): (r: seq<Item>)
    requires idx < |items|
    ensures |r| == |items| - 1
    ensures forall j :: 0 <= j < idx ==> r[j] == items[j]
    ensures forall j :: idx <= j < |r| ==> r[j] == items[j + 1]
  {
    items[..idx] + items[idx + 1..]
  }

  /** Removing a record keeps the ids unique. */
  lemma RemoveKeepsUnique(items: seq<Item>, idx: nat)
    requires UniqueIds(items) && idx < |items|
    ensures UniqueIds(RemoveAt(items, idx))
  {
    var s := RemoveAt(items, idx);
    forall i, j | 0 <= i < |s| && 0 <= j < |s| && i != j && IdNumber(s[i]).Finite?
      ensures IdNumber(s[i]) != IdNumber(s[j])
    {
      var i' := if i < idx then i else i + 1;
      var j' := if j < idx then j else j + 1;
      assert s[i] == items[i'] && s[j] == items[j'];
    }
  }

  /** With unique ids, the record found for an id is the only one with it: after deleting
      it, the same path id is not found. */
  lemma DeleteThenGetNotFound(items: seq<Item>, raw: string)
    requires UniqueIds(items)
    requires Locate(items, raw).Some?
    ensures GetItem(RemoveAt(items, Locate(items, raw).value), raw) == NotFound
  {
    var idx := Locate(items, raw).value;
    var n := ParseIdParam(raw).value;
    var s := RemoveAt(items, idx);
    forall j | 0 <= j < |s| ensures !HasId(s[j], n) {
      var j' := if j < idx then j else j + 1;
      assert s[j] == items[j'];
      assert IdNumber(items[idx]) != IdNumber(items[j']);
    }
  }

  /** The record created with the allocated id `n` is the one its path `/items/<n>` finds. */
  lemma LocateNewest(before: seq<Item>, it: Item, n: nat)
    requires n > 0 && GetNextId(before) == n as real && IdNumber(it) == Finite(n as real)
    ensures Locate(before + [it], NatToString(n)) == Some(|before|)
  {
    NextIdIsFresh(before);
    ParseIdParamOfNat(n);
    FindIndexLast(before, it, n);
  }

  /** A record appended after all records lacking its id is the first one with it. */
  lemma FindIndexLast(before: seq<Item>, it: Item, n: int)
    requires forall j :: 0 <= j < |before| ==> !HasId(before[j], n)
    requires HasId(it, n)
    ensures FindIndex(before + [it], n) == Some(|before|)
  {
    var s := before + [it];
    assert forall j :: 0 <= j < |before| ==> s[j] == before[j];
    assert s[|before|] == it;
  }

  /** Splicing out the last record gives back the records before it. */
  lemma RemoveLast(before: seq<Item>, it: Item)
    ensures RemoveAt(before + [it], |before|) == before
  {
    var r := RemoveAt(before + [it], |before|);
    assert forall j :: 0 <= j < |before| ==> r[j] == before[j];
  }

  /** Patch can break uniqueness: a body carrying another record's id is accepted. */
  lemma PatchCanDuplicateIds()
    ensures var items := [map["id" := JNum(1.0)], map["id" := JNum(2.0)]];
      && UniqueIds(items)
      && ValidateItemInput(map["id" := JNum(1.0)], true).None?
      && !UniqueIds(items[1 := Patched(items[1], map["id" := JNum(1.0)], "t")])
  {
    var items: seq<Item> := [map["id" := JNum(1.0)], map["id" := JNum(2.0)]];
    var p := Patched(items[1], map["id" := JNum(1.0)], "t");
    assert Get(p, "id") == Some(JNum(1.0));
    var s := items[1 := p];
    assert IdNumber(s[0]) == IdNumber(s[1]);
  }

  // ---------------------------------------------------------------- --migrate-ids

  /** `{...it, id: k + 1}` for the record at position k. */
  function Renumber(it: Item, k: nat): Item {
    it["id" := JNum((k + 1) as real)]
  }

  /** The migrated collection. */
  function Renumbered(items: seq<Item>): (r: seq<Item>)
    ensures |r| == |items|
    ensures forall k :: 0 <= k < |items| ==> r[k] == Renumber(items[k], k)
  {
    seq(|items|, k requires 0 <= k < |items| => Renumber(items[k], k))
  }

  /** After migration record k has id k + 1 and every other field unchanged, the ids are
      unique, and the next allocated id is n + 1. */
  lemma RenumberedShape(items: seq<Item>)
    ensures var r := Renumbered(items);
      && (forall k :: 0 <= k < |r| ==> IdNumber(r[k]) == Finite((k + 1) as real))
      && (forall k, f :: 0 <= k < |r| && f != "id" ==> Get(r[k], f) == Get(items[k], f))
      && UniqueIds(r)
      && GetNextId(r) == (|items| + 1) as real
  {
    var r := Renumbered(items);
    var n := |items|;
    assert forall k :: 0 <= k < n ==> IdNumber(r[k]) == Finite((k + 1) as real);
    if n > 0 {
      assert IdNumber(r[n - 1]) == Finite(n as real);
    }
  }
}
