/** The Item Store of server.js: the live collection (the DB file) and the seed file, and the
    handler bodies that change them. Reading the DB file and writing it back whole are the
    reads and assignments of `items`; the timestamp is the parameter `now`. */
module ItemStore {
  import opened Js
  import opened JsNumber
  import opened Json
  import opened Items

  /** `items.map((it) => ({ ...it, id: next++ }))` with `mapping.set(old, id)`: the records
      renumbered 1..n in order, and the (old id, new id) pairs in the order they were set. */
  method Migrate(items: seq<Item>) returns (migrated: seq<Item>, mapping: seq<(Option<JVal>, nat)>)
    ensures migrated == Renumbered(items)
    ensures |mapping| == |items|
    ensures forall k :: 0 <= k < |items| ==> mapping[k] == (Get(items[k], "id"), k + 1)
  {
    migrated := [];
    mapping := [];
    var next := 1;
    var i := 0;
    while i < |items|
      invariant 0 <= i <= |items|
      invariant next == i + 1
      invariant |migrated| == i && |mapping| == i
      invariant forall k :: 0 <= k < i ==> migrated[k] == Renumber(items[k], k)
      invariant forall k :: 0 <= k < i ==> mapping[k] == (Get(items[k], "id"), k + 1)
    {
      var it := items[i];
      var oldId := Get(it, "id");
      var id := next;
      next := next + 1;
      mapping := mapping + [(oldId, id)];
      migrated := migrated + [it["id" := JNum(id as real)]];
      i := i + 1;
    }
  }

  class Store {
    /** The records of the DB file. */
    var items: seq<Item>
    /** The records of the seed file. */
    var seed: seq<Item>

    constructor (db: seq<Item>, seedFile: seq<Item>)
      ensures items == db && seed == seedFile
    {
      items := db;
      seed := seedFile;
    }

    /** POST /items: validate in full mode, then append a record with the next id. */
    method Create(body: Body, now: string) returns (r: Response)
      modifies this
      ensures seed == old(seed)
      ensures ValidateItemInput(body, false).Some? ==>
        r == Invalid(ValidateItemInput(body, false).value) && items == old(items)
      ensures ValidateItemInput(body, false).None? ==>
        var it := NewItem(body, GetNextId(old(items)), now);
        r == Created(it) && items == old(items) + [it]
      ensures UniqueIds(old(items)) ==> UniqueIds(items)
    {
      var err := ValidateItemInput(body, false);
      if err.Some? {
        return Invalid(err.value);
      }
      var it := NewItem(body, GetNextId(items), now);
      NewItemIdNumber(body, GetNextId(items), now);
      if UniqueIds(items) {
        AppendNextIdKeepsUnique(items, it);
      }
      items := items + [it];
      r := Created(it);
    }

    /** PUT /items/:id: validate in full mode, locate the record, overwrite its slot. */
    method Replace(raw: string, body: Body, now: string) returns (r: Response)
      modifies this
      ensures seed == old(seed)
      ensures ValidateItemInput(body, false).Some? ==>
        r == Invalid(ValidateItemInput(body, false).value) && items == old(items)
      ensures ValidateItemInput(body, false).None? && Locate(old(items), raw).None? ==>
        r == NotFound && items == old(items)
      ensures ValidateItemInput(body, false).None? && Locate(old(items), raw).Some? ==>
        var idx := Locate(old(items), raw).value;
        var upd := Replaced(old(items)[idx], body, now);
        r == Updated(upd) && items == old(items)[idx := upd]
      ensures UniqueIds(old(items)) ==> UniqueIds(items)
    {
      var err := ValidateItemInput(body, false);
      if err.Some? {
        return Invalid(err.value);
      }
      var idx := Locate(items, raw);
      if idx.None? {
        return NotFound;
      }
      var upd := Replaced(items[idx.value], body, now);
      ReplacedIdNumber(items[idx.value], body, now);
      if UniqueIds(items) {
        SameIdUpdateKeepsUnique(items, idx.value, upd);
      }
      items := items[idx.value := upd];
      r := Updated(upd);
    }

    /** PATCH /items/:id: validate in partial mode, locate the record, overwrite its slot.
        Unlike the other mutations this can break id uniqueness (see PatchCanDuplicateIds). */
    method Patch(raw: string, body: Body, now: string) returns (r: Response)
      modifies this
      ensures seed == old(seed)
      ensures ValidateItemInput(body, true).Some? ==>
        r == Invalid(ValidateItemInput(body, true).value) && items == old(items)
      ensures ValidateItemInput(body, true).None? && Locate(old(items), raw).None? ==>
        r == NotFound && items == old(items)
      ensures ValidateItemInput(body, true).None? && Locate(old(items), raw).Some? ==>
        var idx := Locate(old(items), raw).value;
        var upd := Patched(old(items)[idx], body, now);
        r == Updated(upd) && items == old(items)[idx := upd]
    {
      var err := ValidateItemInput(body, true);
      if err.Some? {
        return Invalid(err.value);
      }
      var idx := Locate(items, raw);
      if idx.None? {
        return NotFound;
      }
      var upd := Patched(items[idx.value], body, now);
      items := items[idx.value := upd];
      r := Updated(upd);
    }

    /** DELETE /items/:id: locate the record and splice it out. */
    method Delete(raw: string) returns (r: Response)
      modifies this
      ensures seed == old(seed)
      ensures Locate(old(items), raw).None? ==> r == NotFound && items == old(items)
      ensures Locate(old(items), raw).Some? ==>
        r == NoContent && items == RemoveAt(old(items), Locate(old(items), raw).value)
      ensures UniqueIds(old(items)) ==> UniqueIds(items)
      ensures UniqueIds(old(items)) ==> GetItem(items, raw) == NotFound
    {
      var idx := Locate(items, raw);
      if idx.None? {
        assert GetItem(items, raw) == NotFound;
        return NotFound;
      }
      if UniqueIds(items) {
        RemoveKeepsUnique(items, idx.value);
        DeleteThenGetNotFound(items, raw);
      }
      items := RemoveAt(items, idx.value);
      r := NoContent;
    }

    /** POST /reset: the DB file becomes a verbatim copy of the seed file. */
    method Reset()
      modifies this
      ensures items == old(seed) && seed == old(seed)
    {
      items := seed;
    }

    /** `node server.js --migrate-ids`: renumber the records 1..n and write them to both files;
        an empty DB is left alone (and so is the seed). */
    method MigrateIds() returns (mapping: seq<(Option<JVal>, nat)>)
      modifies this
      ensures old(items) == [] ==> items == old(items) && seed == old(seed) && mapping == []
      ensures old(items) != [] ==> items == Renumbered(old(items)) && seed == items
      ensures old(items) != [] ==> |mapping| == |old(items)|
      ensures old(items) != [] ==>
        forall k :: 0 <= k < |mapping| ==> mapping[k] == (Get(old(items)[k], "id"), k + 1)
    {
      if items == [] {
        return [];
      }
      var migrated;
      migrated, mapping := Migrate(items);
      items := migrated;
      seed := migrated;
    }
  }

  /** Resetting twice leaves the same state as resetting once. */
  method ResetTwice(s: Store)
    modifies s
    ensures s.items == old(s.seed) && s.seed == old(s.seed)
  {
    s.Reset();
    var once := s.items;
    s.Reset();
    assert s.items == once;
  }

  /** A created record can be fetched by its id, and deleting it by that id restores the
      collection as it was before the create; the id is then not found. */
  method CreateGetDelete(s: Store, body: Body, now: string)
    returns (created: Response, fetched: Response, deleted: Response, after: Response)
    requires ValidateItemInput(body, false).None?
    requires UniqueIds(s.items)
    requires forall i :: 0 <= i < |s.items| && IdNumber(s.items[i]).Finite? ==> IsWhole(IdNumber(s.items[i]).r)
    modifies s
    ensures created == Created(NewItem(body, GetNextId(old(s.items)), now))
    ensures fetched == Found(created.item)
    ensures deleted == NoContent && after == NotFound
    ensures s.seed == old(s.seed)
    ensures s.items == old(s.items)
  {
    var before := s.items;
    NextIdIsWhole(before);
    var n := GetNextId(before).Floor;
    created := s.Create(body, now);
    var it := created.item;
    NewItemIdNumber(body, n as real, now);
    LocateNewest(before, it, n);
    var path := NatToString(n);
    fetched := GetItem(s.items, path);
    deleted := s.Delete(path);
    after := GetItem(s.items, path);
    RemoveLast(before, it);
  }
}
