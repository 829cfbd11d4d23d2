/**
 * The database the store talks to, as values: a database maps table names to
 * their rows in storage order. The functions here say what each store
 * operation asks of the driver (which rows a `where` selects, what `UPDATE`
 * and `INSERT` write, what `DELETE` removes) and what the operation hands to
 * its callback; the store methods are proved against them.
 */
module Tables {
  import opened Wrappers
  import opened Values
  import opened Json
  import opened Codec

  /** A database: table name to its rows; a table never written reads as empty. */
  type Db = map<string, seq<Row>>

  /** Why an operation fails. */
  datatype Error =
    | Driver    // the driver rejected the command; the rejection reaches the callback
    | Syntax    // `JSON.parse` threw inside the promise chain; the exception reaches the callback
    | NoHandle  // there is no open database: calling a method of the null handle throws

  function Rows(db: Db, table: string): (r: seq<Row>)
    ensures table !in db ==> r == []
  {
    if table in db then db[table] else []
  }

  // ----- selecting rows ---------------------------------------------------------

  /** `where(q)`: the row agrees with every key of the filter. */
  predicate Matches(row: Row, q: Row) {
    forall k :: k in q ==> Get(row, k) == q[k]
  }

  /** The rows a `where(q)` selects, in storage order. */
  function Select(rows: seq<Row>, q: Row): (r: seq<Row>)
    ensures |r| <= |rows|
    ensures forall i :: 0 <= i < |r| ==> Matches(r[i], q)
    decreases rows
  {
    if rows == [] then []
    else (if Matches(rows[0], q) then [rows[0]] else []) + Select(rows[1..], q)
  }

  /** The rows a `where(q)` leaves alone, in storage order. */
  function Reject(rows: seq<Row>, q: Row): (r: seq<Row>)
    ensures |r| <= |rows|
    ensures forall i :: 0 <= i < |r| ==> !Matches(r[i], q)
    decreases rows
  {
    if rows == [] then []
    else (if Matches(rows[0], q) then [] else [rows[0]]) + Reject(rows[1..], q)
  }

  /**
   * Selection keeps storage order: the rows selected from two runs of the
   * table are those of the first run followed by those of the second.
   */
  lemma {:induction false} SelectAppend(a: seq<Row>, b: seq<Row>, q: Row)
    ensures Select(a + b, q) == Select(a, q) + Select(b, q)
    decreases a
  {
    if a != [] {
      var h, t := a[0], a[1..];
      SelectAppend(t, b, q);
      assert a == [h] + t && a + b == [h] + (t + b);
      SelectCons(h, t + b, q);
      SelectCons(h, t, q);
      Assoc(Select([h], q), Select(t, q), Select(b, q));
    } else {
      assert a + b == b;
    }
  }

  /** The rows left by a filter keep storage order in the same way. */
  lemma {:induction false} RejectAppend(a: seq<Row>, b: seq<Row>, q: Row)
    ensures Reject(a + b, q) == Reject(a, q) + Reject(b, q)
    decreases a
  {
    if a != [] {
      var h, t := a[0], a[1..];
      RejectAppend(t, b, q);
      assert a == [h] + t && a + b == [h] + (t + b);
      RejectCons(h, t + b, q);
      RejectCons(h, t, q);
      Assoc(Reject([h], q), Reject(t, q), Reject(b, q));
    } else {
      assert a + b == b;
    }
  }

  /** One step of `Select`: the first row, when it matches, then the rest. */
  lemma SelectCons(h: Row, t: seq<Row>, q: Row)
    ensures Select([h] + t, q) == Select([h], q) + Select(t, q)
  {
    var rows := [h] + t;
    assert rows[0] == h && rows[1..] == t;
    var head: seq<Row> := if Matches(h, q) then [h] else [];
    assert Select(rows, q) == head + Select(t, q);
    assert [h][1..] == [];
    assert Select([h], q) == head + [];
    assert head + [] == head;
  }

  /** One step of `Reject`: the first row, when it does not match, then the rest. */
  lemma RejectCons(h: Row, t: seq<Row>, q: Row)
    ensures Reject([h] + t, q) == Reject([h], q) + Reject(t, q)
  {
    var rows := [h] + t;
    assert rows[0] == h && rows[1..] == t;
    var head: seq<Row> := if Matches(h, q) then [] else [h];
    assert Reject(rows, q) == head + Reject(t, q);
    assert [h][1..] == [];
    assert Reject([h], q) == head + [];
    assert head + [] == head;
  }

  /** Selected and left rows together are the table, counted with multiplicity. */
  lemma {:induction false} SelectRejectPartition(rows: seq<Row>, q: Row)
    ensures multiset(Select(rows, q)) + multiset(Reject(rows, q)) == multiset(rows)
    decreases rows
  {
    if rows != [] {
      var h, t := rows[0], rows[1..];
      SelectRejectPartition(t, q);
      assert rows == [h] + t;
      SplitStep(h, t, Select(t, q), Reject(t, q), Select(rows, q), Reject(rows, q));
    }
  }

  /** Adding one element to either side of a split of `t` gives a split of `[h] + t`. */
  lemma SplitStep<T>(h: T, t: seq<T>, s: seq<T>, r: seq<T>, s': seq<T>, r': seq<T>)
    requires multiset(s) + multiset(r) == multiset(t)
    requires (s' == [h] + s && r' == r) || (s' == s && r' == [h] + r)
    ensures multiset(s') + multiset(r') == multiset([h] + t)
  {
  }

  /** Selected and left rows together are as many as the table's. */
  lemma SelectRejectCount(rows: seq<Row>, q: Row)
    ensures |Select(rows, q)| + |Reject(rows, q)| == |rows|
  {
    SelectRejectPartition(rows, q);
    assert |multiset(Select(rows, q)) + multiset(Reject(rows, q))| == |multiset(rows)|;
  }

  /** Every matching row is selected and every other row is left. */
  lemma SelectRejectComplete(rows: seq<Row>, q: Row)
    ensures forall x :: x in rows && Matches(x, q) ==> x in Select(rows, q)
    ensures forall x :: x in rows && !Matches(x, q) ==> x in Reject(rows, q)
  {
    SelectRejectPartition(rows, q);
    forall x | x in rows
      ensures Matches(x, q) ==> x in Select(rows, q)
      ensures !Matches(x, q) ==> x in Reject(rows, q)
    {
      assert x in multiset(rows);
    }
  }

  /** An empty filter selects every row: `where({})` and select-all agree. */
  lemma {:induction false} SelectEmptyFilter(rows: seq<Row>)
    ensures Select(rows, map[]) == rows
    ensures Reject(rows, map[]) == []
    decreases rows
  {
    if rows != [] {
      SelectEmptyFilter(rows[1..]);
      assert [rows[0]] + rows[1..] == rows;
    }
  }

  /** The first row whose `id` equals `id`: `where({id}).one()`. */
  function FirstWithId(rows: seq<Row>, id: Value): (r: Option<Row>)
    ensures r.Some? ==> r.value in rows && Get(r.value, "id") == id
    ensures r.None? <==> forall i :: 0 <= i < |rows| ==> Get(rows[i], "id") != id
    decreases rows
  {
    if rows == [] then None
    else if Get(rows[0], "id") == id then Some(rows[0])
    else FirstWithId(rows[1..], id)
  }

  /** Position `i` holds a row, and no row before it carries `id`. */
  predicate FirstAt(rows: seq<Row>, id: Value, i: int) {
    0 <= i < |rows| && forall j :: 0 <= j < i ==> Get(rows[j], "id") != id
  }

  /** The found row is the first with that id: no earlier row carries it. */
  lemma {:induction false} FirstWithIdIsFirst(rows: seq<Row>, id: Value)
    requires FirstWithId(rows, id).Some?
    ensures exists i :: FirstAt(rows, id, i) && rows[i] == FirstWithId(rows, id).value
    decreases rows
  {
    if Get(rows[0], "id") != id {
      FirstWithIdIsFirst(rows[1..], id);
      var i :| FirstAt(rows[1..], id, i) && rows[1..][i] == FirstWithId(rows[1..], id).value;
      assert rows[i + 1] == FirstWithId(rows, id).value;
      forall j | 0 <= j < i + 1
        ensures Get(rows[j], "id") != id
      {
        if j > 0 {
          assert rows[j] == rows[1..][j - 1];
        }
      }
      assert FirstAt(rows, id, i + 1);
    } else {
      assert FirstAt(rows, id, 0);
    }
  }

  /** A row appended after rows that lack its id is found by it. */
  lemma {:induction false} FirstWithIdAppend(rows: seq<Row>, row: Row, id: Value)
    requires forall i :: 0 <= i < |rows| ==> Get(rows[i], "id") != id
    requires Get(row, "id") == id
    ensures FirstWithId(rows + [row], id) == Some(row)
    decreases rows
  {
    if rows != [] {
      assert (rows + [row])[1..] == rows[1..] + [row];
      FirstWithIdAppend(rows[1..], row, id);
    } else {
      assert rows + [row] == [row];
    }
  }

  // ----- save -------------------------------------------------------------------

  /**
   * A save is an update exactly when the entity's `id` is truthy: a missing,
   * null, false, zero or empty id means an insert, a non-empty string id
   * (such as a uuid) an update.
   */
  predicate IsUpdate(d: Row): (b: bool)
    ensures b <==> "id" in d && d["id"] !in {Undefined, Null, Bool(false), Num(0), Str("")}
    ensures "id" in d && d["id"].Str? && d["id"].s != "" ==> b
  {
    Truthy(Get(d, "id"))
  }

  /**
   * The entity data after `save` has assigned the id: an update keeps the
   * data, an insert sets `id` to `id$` when that is truthy and else to the
   * generated uuid.
   */
  function AssignId(d: Row, uuid: string): (r: Row)
    ensures IsUpdate(d) ==> r == d
    ensures !IsUpdate(d) && Truthy(Get(d, "id$")) ==> r == d["id" := d["id$"]]
    ensures !IsUpdate(d) && !Truthy(Get(d, "id$")) ==> r == d["id" := Str(uuid)]
  {
    if IsUpdate(d) then d
    else if Truthy(Get(d, "id$")) then d["id" := d["id$"]]
    else d["id" := Str(uuid)]
  }

  /**
   * After `save` the entity always carries a truthy id (given a non-empty
   * uuid), so saving it again is an update, and every other property is as
   * it was.
   */
  lemma AssignIdEffect(d: Row, uuid: string)
    requires uuid != ""
    ensures IsUpdate(AssignId(d, uuid))
    ensures AssignId(AssignId(d, uuid), uuid) == AssignId(d, uuid)
    ensures forall k :: k != "id" ==> Get(AssignId(d, uuid), k) == Get(d, k)
    ensures "id" in AssignId(d, uuid)
  {
  }

  /**
   * The cells a write stores. `.set` is handed every cell, undefined ones
   * included; the driver is taken to skip a cell holding undefined, so such
   * a column is neither written nor cleared.
   */
  function Stored(entp: Row): (r: Row)
    ensures r.Keys <= entp.Keys
    ensures forall k :: Get(r, k) == Get(entp, k)
    ensures forall k :: k in r ==> !r[k].Undefined?
  {
    map k | k in entp && !entp[k].Undefined? :: entp[k]
  }

  /** `UPDATE table SET entp WHERE id = entp.id`: every row with that id takes the written cells. */
  function UpdateRows(rows: seq<Row>, entp: Row): (r: seq<Row>)
    ensures |r| == |rows|
    ensures forall i :: 0 <= i < |rows| ==>
      r[i] == if Get(rows[i], "id") == Get(entp, "id") then rows[i] + Stored(entp) else rows[i]
  {
    seq(|rows|, i requires 0 <= i < |rows| =>
      if Get(rows[i], "id") == Get(entp, "id") then rows[i] + Stored(entp) else rows[i])
  }

  /** The table after a save of data `d` (its id already assigned): update in place or append. */
  function SaveRows(rows: seq<Row>, d: Row, update: bool): (r: seq<Row>)
    ensures update ==> |r| == |rows|
    ensures update ==> forall i :: 0 <= i < |rows| && Get(rows[i], "id") != Get(EncodeRow(d), "id") ==> r[i] == rows[i]
    ensures !update ==> |r| == |rows| + 1 && r[..|rows|] == rows && r[|rows|] == Stored(EncodeRow(d))
  {
    if update then UpdateRows(rows, EncodeRow(d)) else rows + [Stored(EncodeRow(d))]
  }

  /** An update whose id no row carries writes nothing: `save` never inserts a client-chosen `id`. */
  lemma UpdateMissingIsNoOp(rows: seq<Row>, d: Row)
    requires forall i :: 0 <= i < |rows| ==> Get(rows[i], "id") != Get(EncodeRow(d), "id")
    ensures SaveRows(rows, d, true) == rows
  {
  }

  /** An insert adds one row at the end and keeps the others. */
  lemma InsertAppends(rows: seq<Row>, d: Row)
    ensures |SaveRows(rows, d, false)| == |rows| + 1
    ensures SaveRows(rows, d, false)[..|rows|] == rows
    ensures forall f :: f in Fields(d) && !d[f].Undefined? ==>
      SaveRows(rows, d, false)[|rows|][f] == EncodeCell(d[f])
  {
    assert (rows + [Stored(EncodeRow(d))])[..|rows|] == rows;
  }

  // ----- load -------------------------------------------------------------------

  /** What `load` hands its callback: null on a miss, else the found row decoded against the template. */
  function LoadResult(rows: seq<Row>, t: Row, q: Row): (r: Result<Option<Row>, Error>)
    ensures r == Ok(None) <==> FirstWithId(rows, Get(q, "id")).None?
    ensures FirstWithId(rows, Get(q, "id")).Some? ==> (r.Err? <==> DecodeFails(t, FirstWithId(rows, Get(q, "id")).value))
    ensures r.Ok? && r.value.Some? ==> DecodeRow(t, FirstWithId(rows, Get(q, "id")).value) == Some(r.value.value)
    ensures r.Err? ==> r.error == Syntax
    ensures r.Ok? && r.value.Some? ==> r.value.value.Keys <= Fields(t)
  {
    match FirstWithId(rows, Get(q, "id"))
    case None => Ok(None)
    case Some(row) =>
      match DecodeRow(t, row)
      case None => Err(Syntax)
      case Some(d) => Ok(Some(d))
  }

  /** A miss is not an error: the callback receives null. */
  lemma LoadMiss(rows: seq<Row>, t: Row, id: Value)
    requires forall i :: 0 <= i < |rows| ==> Get(rows[i], "id") != id
    ensures LoadResult(rows, t, map["id" := id]) == Ok(None)
  {
    assert Get(map["id" := id], "id") == id;
  }

  /** Decoding reads a row only through `Get`, so dropping its undefined cells changes nothing. */
  lemma DecodeStored(t: Row, row: Row)
    ensures DecodeRow(t, Stored(row)) == DecodeRow(t, row)
  {
    assert Present(t, Stored(row)) == Present(t, row);
    assert DecodeFails(t, Stored(row)) == DecodeFails(t, row);
    if !DecodeFails(t, row) {
      var a := DecodeRow(t, Stored(row)).value;
      var b := DecodeRow(t, row).value;
      forall f | f in a
        ensures a[f] == b[f]
      {
      }
      assert a == b;
    }
  }

  /**
   * Insert then load: after an insert whose id no earlier row carries, a
   * load by that id against a template that agrees with the entity returns
   * the entity's defined fields (objects as their JSON image).
   */
  lemma InsertThenLoad(rows: seq<Row>, d: Row, t: Row)
    requires "id" in Fields(d) && !Serialized(d["id"])
    requires forall i :: 0 <= i < |rows| ==> Get(rows[i], "id") != d["id"]
    requires Fields(t) == Fields(d)
    requires forall f :: f in Fields(d) ==> Agrees(t[f], d[f])
    requires !d["id"].Undefined?
    ensures LoadResult(SaveRows(rows, d, false), t, map["id" := d["id"]]) == Ok(Some(ExpectedRow(d)))
  {
    var row := Stored(EncodeRow(d));
    assert Get(row, "id") == d["id"];
    FirstWithIdAppend(rows, row, d["id"]);
    assert Get(map["id" := d["id"]], "id") == d["id"];
    DecodeStored(t, EncodeRow(d));
    RowRoundTrip(t, d);
  }

  // ----- list -------------------------------------------------------------------

  /** The rows `list` reads: all of them for an empty filter, else those matching it. */
  function Listed(rows: seq<Row>, q: Row): (r: seq<Row>)
    ensures |q| == 0 ==> r == rows
    ensures forall i :: 0 <= i < |r| ==> Matches(r[i], q)
  {
    if |q| == 0 then (SelectEmptyFilter(rows); rows) else Select(rows, q)
  }

  /** What `list` hands its callback: every listed row after the lenient pass. It never fails on a parse. */
  function ListResult(rows: seq<Row>, q: Row): (r: seq<Row>)
    ensures |r| == |Listed(rows, q)|
    ensures forall i :: 0 <= i < |r| ==> r[i] == LenientRow(Listed(rows, q)[i])
  {
    seq(|Listed(rows, q)|, i requires 0 <= i < |Listed(rows, q)| => LenientRow(Listed(rows, q)[i]))
  }

  /** The select-all branch is only a shortcut: `list` with any filter reads exactly the matching rows. */
  lemma ListedMatching(rows: seq<Row>, q: Row)
    ensures Listed(rows, q) == Select(rows, q)
  {
    if |q| == 0 {
      SelectEmptyFilter(rows);
      assert q == map[];
    }
  }

  /** An object field saved by `makeentp` is listed as its JSON image. */
  lemma ListRecoversObjects(rows: seq<Row>, q: Row, i: nat, f: string, v: Value)
    requires i < |Listed(rows, q)| && f in Listed(rows, q)[i]
    requires Listed(rows, q)[i][f] == EncodeCell(v) && Serialized(v) && WellFormed(v)
    ensures f in ListResult(rows, q)[i] && ListResult(rows, q)[i][f] == Image(v)
  {
    LenientRecovers(v);
  }

  // ----- remove -----------------------------------------------------------------

  /** `remove` deletes the whole table when the filter has no keys or `all$` is truthy. */
  predicate RemovesAll(q: Row): (b: bool)
    ensures |q| == 0 ==> b
    ensures "all$" in q && q["all$"] == Bool(true) ==> b
    ensures |q| > 0 && "all$" !in q ==> !b
  {
    |q| == 0 || Truthy(Get(q, "all$"))
  }

  /** The table after `remove`. */
  function RemoveRows(rows: seq<Row>, q: Row): (r: seq<Row>)
    ensures RemovesAll(q) ==> r == []
    ensures !RemovesAll(q) ==> forall i :: 0 <= i < |r| ==> !Matches(r[i], q)
  {
    if RemovesAll(q) then [] else Reject(rows, q)
  }

  /** The count `remove` reports: the rows the delete removed. */
  function RemoveCount(rows: seq<Row>, q: Row): (n: nat)
    ensures RemovesAll(q) ==> n == |rows|
    ensures n <= |rows|
  {
    if RemovesAll(q) then |rows| else |Select(rows, q)|
  }

  /** The count is exactly the number of rows that disappeared, and a row survives only when it fails the filter. */
  lemma RemoveAccounts(rows: seq<Row>, q: Row)
    ensures RemoveCount(rows, q) + |RemoveRows(rows, q)| == |rows|
    ensures multiset(RemoveRows(rows, q)) <= multiset(rows)
    ensures !RemovesAll(q) ==> forall x :: x in rows && !Matches(x, q) ==> x in RemoveRows(rows, q)
  {
    SelectRejectPartition(rows, q);
    SelectRejectCount(rows, q);
    SelectRejectComplete(rows, q);
  }

  /** A truthy `all$` empties the table whatever other keys the filter has. */
  lemma RemoveAllOverridesFilter(rows: seq<Row>, q: Row, v: Value)
    requires Truthy(v)
    ensures RemoveRows(rows, q["all$" := v]) == []
    ensures RemoveCount(rows, q["all$" := v]) == |rows|
  {
    assert Get(q["all$" := v], "all$") == v;
  }

  /**
   * A falsy but defined `all$` (say `false`) stays in the filter, and no
   * stored row has an `all$` column, so nothing is removed.
   */
  lemma RemoveFalsyAllKeepsRows(rows: seq<Row>, q: Row)
    requires "all$" in q && !Truthy(q["all$"]) && !q["all$"].Undefined?
    requires forall i :: 0 <= i < |rows| ==> "all$" !in rows[i]
    ensures RemoveRows(rows, q) == rows
    ensures RemoveCount(rows, q) == 0
  {
    forall x | x in rows
      ensures !Matches(x, q)
    {
      assert Get(x, "all$") == Undefined;
    }
    RejectNone(rows, q);
  }

  /** Rows none of which match are all kept and none is selected. */
  lemma {:induction false} RejectNone(rows: seq<Row>, q: Row)
    requires forall x :: x in rows ==> !Matches(x, q)
    ensures Reject(rows, q) == rows
    ensures Select(rows, q) == []
    decreases rows
  {
    if rows != [] {
      var h, t := rows[0], rows[1..];
      assert rows == [h] + t;
      forall x | x in t
        ensures !Matches(x, q)
      {
        assert x in rows;
      }
      RejectNone(t, q);
      assert !Matches(h, q);
    }
  }
}
