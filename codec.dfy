/**
 * The entity codec of lib/orient-store.js: the table name of an entity type
 * (`tablename`), the flat row written for an entity (`makeentp`), the entity
 * read back from a row against a template (`makeent`), and the lenient pass
 * `list` applies to every row it reads.
 */
module Codec {
  import opened Wrappers
  import opened Values
  import opened Json
  import Dates
  import Decimal

  // ----- table names --------------------------------------------------------

  /** An entity's canonical type: an optional base and a name. */
  datatype Canon = Canon(base: Option<string>, name: string)

  /** `canon.base` is truthy: present and not the empty string. */
  predicate HasBase(c: Canon) {
    c.base.Some? && c.base.value != ""
  }

  /** `tablename`: the base and the name joined by an underscore, or the bare name. */
  function TableName(c: Canon): (r: string)
    ensures HasBase(c) ==> r == c.base.value + "_" + c.name
    ensures !HasBase(c) ==> r == c.name
  {
    (if HasBase(c) then c.base.value + "_" else "") + c.name
  }

  /**
   * The table names behind the classes FOO and MOON_BAR that the test setup
   * expects (test/orient.test.js:19; OrientDB class names ignore case):
   * type moon/bar is stored in moon_bar, a type without a base in the table
   * of its bare name.
   */
  lemma TableNameExamples()
    ensures TableName(Canon(Some("moon"), "bar")) == "moon_bar"
    ensures TableName(Canon(None, "foo")) == "foo"
    ensures TableName(Canon(Some(""), "foo")) == "foo"
  {
  }

  /**
   * The join is not injective: two different types can share a table when a
   * base or a name holds an underscore.
   */
  lemma TableNameCollision()
    ensures Canon(Some("a_b"), "c") != Canon(Some("a"), "b_c")
    ensures TableName(Canon(Some("a_b"), "c")) == TableName(Canon(Some("a"), "b_c"))
  {
    assert TableName(Canon(Some("a_b"), "c")) == "a_b_c";
    assert TableName(Canon(Some("a"), "b_c")) == "a_b_c";
  }

  predicate NoUnderscore(s: string) {
    forall i :: 0 <= i < |s| ==> s[i] != '_'
  }

  /** Two joins whose bases hold no underscore agree only when the bases and the names agree. */
  lemma {:induction false} JoinInjective(b1: string, n1: string, b2: string, n2: string)
    requires NoUnderscore(b1) && NoUnderscore(b2)
    requires b1 + "_" + n1 == b2 + "_" + n2
    ensures b1 == b2 && n1 == n2
  {
    var s := b1 + "_" + n1;
    assert s[|b1|] == '_';
    assert s[|b2|] == '_';
    assert |b1| == |b2|;
    assert b1 == s[..|b1|] == b2;
    assert n1 == s[|b1| + 1..] == n2;
  }

  /** Types whose bases are present and hold no underscore have distinct table names. */
  lemma TableNameInjective(c1: Canon, c2: Canon)
    requires HasBase(c1) && HasBase(c2)
    requires NoUnderscore(c1.base.value) && NoUnderscore(c2.base.value)
    requires TableName(c1) == TableName(c2)
    ensures c1 == c2
  {
    JoinInjective(c1.base.value, c1.name, c2.base.value, c2.name);
  }

  // ----- entity data and rows ----------------------------------------------

  /** An entity's own properties, or a database row: property name to value. */
  type Row = map<string, Value>

  predicate IsControl(k: string) {
    |k| > 0 && k[|k| - 1] == '$'
  }

  /** `fields$()`: the entity's data properties, that is every key not ending in `$`. */
  function Fields(d: Row): (r: set<string>)
    ensures forall k :: k in r <==> k in d && !IsControl(k)
  {
    set k | k in d && !IsControl(k)
  }

  /** A cell the codec stores as JSON text: an object or array that is not a Date. */
  predicate Serialized(v: Value) {
    !IsDate(v) && IsObject(v)
  }

  /** One field of `makeentp`. */
  function EncodeCell(v: Value): (r: Value)
    ensures Serialized(v) ==> r.Str?
    ensures !Serialized(v) ==> r == v
    ensures !(r.Arr? || r.Obj?)
  {
    if Serialized(v) then Stringify(v) else v
  }

  /** `makeentp`: every field, with objects and arrays replaced by their JSON text. */
  function EncodeRow(d: Row): (r: Row)
    ensures r.Keys == Fields(d)
    ensures forall f :: f in r ==> r[f] == EncodeCell(d[f])
    ensures forall f :: f in r ==> !(r[f].Arr? || r[f].Obj?)
  {
    map f | f in Fields(d) :: EncodeCell(d[f])
  }

  /** An object field written by `makeentp` holds text that parses back to the field's JSON image. */
  lemma EncodeCellParses(v: Value)
    requires Serialized(v) && WellFormed(v)
    ensures EncodeCell(v).Str?
    ensures ParseAny(EncodeCell(v)) == Some(Image(v))
  {
    StringifyParse(v);
  }

  // ----- decoding ------------------------------------------------------------

  /** How `makeent` treats a field, chosen by the template's value for it. */
  datatype Kind = DateKind | ObjectKind | RawKind

  function KindOf(t: Value): (k: Kind)
    ensures k == DateKind <==> IsDate(t)
    ensures k == ObjectKind <==> Serialized(t)
  {
    if IsDate(t) then DateKind else if IsObject(t) then ObjectKind else RawKind
  }

  /** One field of `makeent`: None is the SyntaxError `JSON.parse` throws. */
  function DecodeCell(t: Value, cell: Value): (r: Option<Value>)
    ensures KindOf(t) == RawKind ==> r == Some(cell)
    ensures KindOf(t) == ObjectKind ==> r == ParseAny(cell)
    ensures KindOf(t) == DateKind ==> (r.Some? <==> ParseAny(cell).Some?)
    ensures KindOf(t) == DateKind && r.Some? ==> r.value.Date?
  {
    match KindOf(t)
    case DateKind =>
      (match ParseAny(cell) case None => None case Some(x) => Some(Dates.NewDate(x)))
    case ObjectKind => ParseAny(cell)
    case RawKind => Some(cell)
  }

  /** The fields `makeent` fills from `row`: the template's fields the row defines. */
  function Present(t: Row, row: Row): (r: set<string>)
    ensures forall f :: f in r <==> f in Fields(t) && !Get(row, f).Undefined?
  {
    set f | f in Fields(t) && !Get(row, f).Undefined?
  }

  /** Some present field fails to decode. */
  predicate DecodeFails(t: Row, row: Row) {
    exists f :: f in Present(t, row) && DecodeCell(t[f], Get(row, f)).None?
  }

  /**
   * `makeent`: the entity data decoded from `row` against the template `t`;
   * the first failing `JSON.parse` makes the whole decode fail.
   */
  function DecodeRow(t: Row, row: Row): (r: Option<Row>)
    ensures r.None? <==> DecodeFails(t, row)
    ensures r.Some? ==> r.value.Keys == Present(t, row)
    ensures r.Some? ==> forall f :: f in r.value ==> DecodeCell(t[f], Get(row, f)) == Some(r.value[f])
  {
    if DecodeFails(t, row) then None
    else Some(map f | f in Present(t, row) :: DecodeCell(t[f], Get(row, f)).value)
  }

  /** The decoded entity never holds a field the template does not declare, nor a `$` key. */
  lemma DecodeKeys(t: Row, row: Row)
    requires DecodeRow(t, row).Some?
    ensures forall f :: f in DecodeRow(t, row).value ==> f in Fields(t) && f in row
  {
  }

  // ----- the round trip -------------------------------------------------------

  /** What a field of `d` reads back as after `makeentp` then `makeent`: its JSON image when it was serialised. */
  function Expected(v: Value): Value {
    if Serialized(v) then Image(v) else v
  }

  /** The defined fields of `d`, each as `makeent` is meant to return it. */
  function ExpectedRow(d: Row): (r: Row)
    ensures r.Keys == set f | f in Fields(d) && !d[f].Undefined?
  {
    map f | f in Fields(d) && !d[f].Undefined? :: Expected(d[f])
  }

  /** A field's template kind agrees with the value saved in it, and the value is not a Date. */
  predicate Agrees(t: Value, v: Value) {
    !IsDate(v) && !IsDate(t) && (Serialized(v) <==> Serialized(t)) && WellFormed(v)
  }

  /** One defined field: decoding the encoded cell against an agreeing template gives the expected value. */
  lemma CellRoundTrip(t: Value, v: Value)
    requires Agrees(t, v) && !v.Undefined?
    ensures DecodeCell(t, EncodeCell(v)) == Some(Expected(v))
  {
    if Serialized(v) {
      EncodeCellParses(v);
    }
  }

  /**
   * `makeent(t, makeentp(d))` returns every defined field of `d`: scalars
   * unchanged and objects as their JSON image, provided the template declares
   * the same fields with agreeing kinds and no field holds a Date.
   */
  lemma RowRoundTrip(t: Row, d: Row)
    requires Fields(t) == Fields(d)
    requires forall f :: f in Fields(d) ==> Agrees(t[f], d[f])
    ensures DecodeRow(t, EncodeRow(d)) == Some(ExpectedRow(d))
  {
    var row := EncodeRow(d);
    forall f | f in Present(t, row)
      ensures !d[f].Undefined? && DecodeCell(t[f], Get(row, f)) == Some(Expected(d[f]))
    {
      CellRoundTrip(t[f], d[f]);
    }
    assert !DecodeFails(t, row);
    var r := DecodeRow(t, row).value;
    var e := ExpectedRow(d);
    forall f | f in e
      ensures f in r && r[f] == e[f]
    {
      assert Get(row, f) == EncodeCell(d[f]);
    }
    assert r == e;
  }

  /**
   * With the saved entity itself as template, fields holding plain data come
   * back exactly and undefined fields are dropped.
   */
  lemma SelfRoundTrip(d: Row)
    requires forall f :: f in Fields(d) ==> !IsDate(d[f]) && WellFormed(d[f]) && (d[f].Undefined? || Plain(d[f]))
    ensures DecodeRow(d, EncodeRow(d)) == Some(map f | f in Fields(d) && !d[f].Undefined? :: d[f])
  {
    RowRoundTrip(d, d);
    var e := ExpectedRow(d);
    forall f | f in e
      ensures e[f] == d[f]
    {
      ImagePlain(d[f]);
    }
    assert e == map f | f in Fields(d) && !d[f].Undefined? :: d[f];
  }

  /**
   * A Date field does not survive: `makeentp` stores the Date as it is, and
   * `makeent` hands it to `JSON.parse`, which throws on a Date's text.
   */
  lemma DateFieldFails(t: Row, d: Row, f: string)
    requires f in Fields(t) && f in Fields(d)
    requires IsDate(t[f]) && IsDate(d[f])
    ensures DecodeRow(t, EncodeRow(d)).None?
  {
    var row := EncodeRow(d);
    assert Get(row, f) == d[f];
    assert f in Present(t, row);
    assert DecodeCell(t[f], Get(row, f)).None?;
  }

  /**
   * A Date field whose cell holds the JSON text of a valid Date, as
   * `JSON.stringify` writes it, decodes back to that Date.
   */
  lemma DateTextDecodes(tv: Value, ms: int)
    requires IsDate(tv) && -Dates.MaxTime <= ms <= Dates.MaxTime
    ensures DecodeCell(tv, Stringify(Date(Valid(ms)))) == Some(Date(Valid(ms)))
  {
    var v, iso := Date(Valid(ms)), Dates.IsoString(ms);
    StringifyParse(v);
    assert Image(v) == Str(iso);
    assert ParseAny(Stringify(v)) == Some(Str(iso));
    Dates.ParseIsoComplete(ms);
    assert Dates.NewDate(Str(iso)) == v;
    assert KindOf(tv) == DateKind;
  }

  // ----- the lenient pass of `list` ------------------------------------------

  /** A string cell is replaced by its JSON parse when that succeeds; any other cell is kept. */
  function LenientCell(v: Value): (r: Value)
    ensures !v.Str? ==> r == v
    ensures v.Str? && Parse(v.s).Some? ==> r == Parse(v.s).value
    ensures v.Str? && Parse(v.s).None? ==> r == v
  {
    if v.Str? then (match Parse(v.s) case Some(x) => x case None => v) else v
  }

  /** The pass over every key of a row: the keys stay, every cell goes through `LenientCell`. */
  function LenientRow(row: Row): (r: Row)
    ensures r.Keys == row.Keys
    ensures forall k :: k in r ==> r[k] == LenientCell(row[k])
  {
    map k | k in row :: LenientCell(row[k])
  }

  /** The lenient pass recovers an object field's JSON image from the text `makeentp` wrote. */
  lemma LenientRecovers(v: Value)
    requires Serialized(v) && WellFormed(v)
    ensures LenientCell(EncodeCell(v)) == Image(v)
  {
    StringifyParse(v);
  }

  /** For example, the plain word "hello" is not JSON text, so it comes back unchanged. */
  lemma LenientKeepsText()
    ensures LenientCell(Str("hello")) == Str("hello")
  {
    assert Parse("hello") == None;
  }

  /**
   * A scalar string that happens to be JSON text does not come back as a
   * string: the text "42" is read as the number 42.
   */
  lemma LenientMisreads()
    ensures EncodeCell(Str("42")) == Str("42")
    ensures LenientCell(Str("42")) == Num(42)
  {
    assert Decimal.NatText(4) == "4";
    assert Decimal.IntText(42) == "42";
    NumberValueRoundTrip(42, []);
    assert "42" + [] == "42";
    assert Parse("42") == Some(Num(42));
  }
}
