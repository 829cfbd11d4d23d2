/**
 * The store of lib/orient-store.js: entities whose `id` `save` assigns in
 * place, and the store object whose closure state `dbinst`/`server` the
 * lifecycle methods update. The server is an in-memory map of databases; the
 * open database handle is the name of one of them or null. Each method
 * states its outcome and new state through the functions of `Tables`.
 */
module OrientStore {
  import opened Wrappers
  import opened Values
  import opened Json
  import opened Codec
  import opened Tables

  /** A framework entity: its canonical type and its own properties, data and `$` keys alike. */
  class Entity {
    const canon: Canon
    var data: Row

    /** `make$(data)` on an entity of type `canon`. */
    constructor (canon: Canon, data: Row)
      ensures this.canon == canon && this.data == data
    {
      this.canon := canon;
      this.data := data;
    }
  }

  /**
   * The lenient pass `list` runs over one row: every string cell whose text
   * is JSON is replaced by its parse, every other cell is kept. A failed parse
   * is swallowed.
   */
  method LenientPass(row: Row) returns (out: Row)
    ensures out == LenientRow(row)
    ensures out.Keys == row.Keys
    ensures forall k :: k in row && !row[k].Str? ==> out[k] == row[k]
  {
    out := row;
    var keys := row.Keys;
    while keys != {}
      invariant keys <= row.Keys && out.Keys == row.Keys
      invariant forall k :: k in row && k !in keys ==> out[k] == LenientCell(row[k])
      invariant forall k :: k in keys ==> out[k] == row[k]
      decreases keys
    {
      var k :| k in keys;
      if out[k].Str? {
        match Parse(out[k].s)
        case Some(x) => out := out[k := x];
        case None =>
      }
      keys := keys - {k};
    }
  }

  class Store {
    /** The server: database name to its tables. */
    var databases: map<string, Db>
    /** `dbinst`: the name of the open database, or None for null. */
    var handle: Option<string>

    /** An open handle names a database of the server. */
    predicate Valid()
      reads this
    {
      handle.Some? ==> handle.value in databases
    }

    /** The tables behind the open handle. */
    function Open(): Db
      reads this
      requires Valid() && handle.Some?
    {
      databases[handle.value]
    }

    /** A store over a server, not yet configured: `dbinst` starts null. */
    constructor (databases: map<string, Db>)
      ensures Valid() && this.databases == databases && handle.None?
    {
      this.databases := databases;
      handle := None;
    }

    /**
     * `configure`: the named database is created empty when the server lacks
     * it, then opened.
     */
    method Configure(name: string)
      modifies this
      ensures Valid() && handle == Some(name)
      ensures name in old(databases) ==> databases == old(databases)
      ensures name !in old(databases) ==> databases == old(databases)[name := map[]]
    {
      if name !in databases {
        databases := databases[name := map[]];
      }
      handle := Some(name);
    }

    /**
     * `close`: the handle becomes null and the data stays; the callback runs
     * only when one is given. From any state the result is the same, so a
     * second close changes nothing.
     */
    method Close(hasCallback: bool) returns (calledBack: bool)
      modifies this
      ensures Valid() && handle.None? && databases == old(databases)
      ensures calledBack == hasCallback
    {
      if handle.Some? {
        handle := None;
      }
      calledBack := hasCallback;
    }

    /** `native`: the handle itself. */
    method Native() returns (r: Option<string>)
      requires Valid()
      ensures r == handle
      ensures r.Some? ==> r.value in databases
    {
      r := handle;
    }

    /**
     * `save`: the id is assigned first and stays assigned whatever follows;
     * then the encoded entity is written by update (truthy `id`) or insert.
     * `fault` stands for the driver rejecting the command.
     */
    method Save(ent: Entity, uuid: string, fault: bool) returns (r: Result<Entity, Error>)
      requires Valid()
      modifies this, ent
      ensures Valid() && handle == old(handle)
      ensures ent.data == AssignId(old(ent.data), uuid)
      ensures handle.None? ==> r == Err(NoHandle) && databases == old(databases)
      ensures handle.Some? && fault ==> r == Err(Driver) && databases == old(databases)
      ensures handle.Some? && !fault ==>
        var table := TableName(ent.canon);
        var rows := SaveRows(Rows(old(Open()), table), ent.data, IsUpdate(old(ent.data)));
        r == Ok(ent) && databases == old(databases)[handle.value := old(Open())[table := rows]]
    {
      var update := IsUpdate(ent.data);
      var table := TableName(ent.canon);
      if !update {
        if Truthy(Get(ent.data, "id$")) {
          ent.data := ent.data["id" := ent.data["id$"]];
        } else {
          ent.data := ent.data["id" := Str(uuid)];
        }
      }
      var entp := EncodeRow(ent.data);
      if handle.None? {
        return Err(NoHandle);
      }
      if fault {
        return Err(Driver);
      }
      var db := databases[handle.value];
      var rows := Rows(db, table);
      if update {
        rows := UpdateRows(rows, entp);
      } else {
        rows := rows + [Stored(entp)];
      }
      databases := databases[handle.value := db[table := rows]];
      r := Ok(ent);
    }

    /**
     * `load`: the first row of the type's table whose `id` is `q.id`, decoded
     * against `qent` into a new entity of its type; null on a miss.
     */
    method Load(qent: Entity, q: Row, fault: bool) returns (r: Result<Option<Entity>, Error>)
      requires Valid()
      ensures handle.None? ==> r == Err(NoHandle)
      ensures handle.Some? && fault ==> r == Err(Driver)
      ensures handle.Some? && !fault ==>
        var expected := LoadResult(Rows(Open(), TableName(qent.canon)), qent.data, q);
        (expected.Err? ==> r == Err(expected.error)) &&
        (expected == Ok(None) ==> r == Ok(None)) &&
        (expected.Ok? && expected.value.Some? ==>
          r.Ok? && r.value.Some? && fresh(r.value.value) &&
          r.value.value.canon == qent.canon && r.value.value.data == expected.value.value)
    {
      if handle.None? {
        return Err(NoHandle);
      }
      if fault {
        return Err(Driver);
      }
      var rows := Rows(databases[handle.value], TableName(qent.canon));
      var found := FirstWithId(rows, Get(q, "id"));
      if found.None? {
        return Ok(None);
      }
      var d := DecodeRow(qent.data, found.value);
      if d.None? {
        return Err(Syntax);
      }
      var ent := new Entity(qent.canon, d.value);
      r := Ok(Some(ent));
    }

    /**
     * `list`: the type's rows (all for an empty filter, else the matching
     * ones), each through the lenient pass and made into a new entity of the
     * type. Only the driver can make it fail.
     */
    method List(qent: Entity, q: Row, fault: bool) returns (r: Result<seq<Entity>, Error>)
      requires Valid()
      ensures handle.None? ==> r == Err(NoHandle)
      ensures handle.Some? && fault ==> r == Err(Driver)
      ensures handle.Some? && !fault ==>
        var expected := ListResult(Rows(Open(), TableName(qent.canon)), q);
        r.Ok? && |r.value| == |expected| &&
        forall i :: 0 <= i < |expected| ==>
          fresh(r.value[i]) && r.value[i].canon == qent.canon && r.value[i].data == expected[i]
    {
      if handle.None? {
        return Err(NoHandle);
      }
      if fault {
        return Err(Driver);
      }
      var rows := Rows(databases[handle.value], TableName(qent.canon));
      var results := if |q| != 0 then Select(rows, q) else rows;
      ghost var expected := ListResult(rows, q);
      assert results == Listed(rows, q);
      var list: seq<Entity> := [];
      var i := 0;
      while i < |results|
        invariant 0 <= i <= |results| && |list| == i
        invariant forall j :: 0 <= j < i ==>
          fresh(list[j]) && list[j].canon == qent.canon && list[j].data == expected[j]
      {
        var row := LenientPass(results[i]);
        var fent := new Entity(qent.canon, row);
        list := list + [fent];
        i := i + 1;
      }
      r := Ok(list);
    }

    /**
     * `remove`: the whole table when the filter is empty or `all$` is truthy,
     * else the matching rows; the callback receives the number removed.
     */
    method Remove(qent: Entity, q: Row, fault: bool) returns (r: Result<nat, Error>)
      requires Valid()
      modifies this
      ensures Valid() && handle == old(handle)
      ensures handle.None? ==> r == Err(NoHandle) && databases == old(databases)
      ensures handle.Some? && fault ==> r == Err(Driver) && databases == old(databases)
      ensures handle.Some? && !fault ==>
        var rows := Rows(old(Open()), TableName(qent.canon));
        r == Ok(RemoveCount(rows, q)) &&
        databases == old(databases)[handle.value := old(Open())[TableName(qent.canon) := RemoveRows(rows, q)]]
    {
      if handle.None? {
        return Err(NoHandle);
      }
      if fault {
        return Err(Driver);
      }
      var table := TableName(qent.canon);
      var db := databases[handle.value];
      var rows := Rows(db, table);
      var total: nat;
      if |q| == 0 || Truthy(Get(q, "all$")) {
        total := |rows|;
        rows := [];
      } else {
        total := |Select(rows, q)|;
        rows := Reject(rows, q);
      }
      databases := databases[handle.value := db[table := rows]];
      r := Ok(total);
    }
  }
}
