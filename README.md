# seneca-orient-store, modelled in Dafny

seneca-orient-store is the OrientDB store plugin for the Seneca framework. It
lets Seneca entities be saved, loaded, listed and removed in an OrientDB
database. This project models its core, `lib/orient-store.js`, and proves
properties of the model:

- **table naming**: `tablename` joins the entity type's base and name;
- **the entity codec**:
  - `makeentp` flattens an entity into a row, writing objects and arrays as JSON text;
  - `makeent` decodes a row against a template entity;
- **the store operations** `save`, `load`, `list`, `remove`, `close`, `native`
  and `configure`. They run over an in-memory server: a map from database names
  to tables, each table a sequence of rows in storage order.

The JSON text that `makeentp` writes and `makeent` and `list` read is
modelled concretely, not assumed:

- `JSON.stringify` is a function to text;
- `JSON.parse` is a parser that can fail;
- `JSON.parse(JSON.stringify(v))` is proved to give back `v`'s JSON image
  (`Json.StringifyParse`).

Dates are opaque time values. Only three operations on them are modelled:

- `toISOString`, which is what `JSON.stringify` writes for a Date;
- `Date.parse` of that text;
- the one-argument `new Date(x)`.

Files, leaf first:

| file | module | contents |
|---|---|---|
| wrappers.dfy | `Wrappers` | `Option`, `Result` |
| values.dfy | `Values` | JavaScript values, truthiness, lodash `isDate`/`isObject`, property read |
| decimal.dfy | `Decimal` | decimal text of integers and its reading |
| dates.dfy | `Dates` | time values, `TimeClip`, ISO text, `Date.parse` of ISO text, `new Date(x)` |
| json.dfy | `Json` | `JSON.stringify`, `JSON.parse`, the round-trip theorem |
| codec.dfy | `Codec` | `tablename`, `makeentp`, `makeent`, the lenient pass of `list` |
| tables.dfy | `Tables` | what each operation selects, writes and returns, as functions over rows |
| store.dfy | `OrientStore` | the `Entity` and `Store` classes, whose methods are proved against `Tables` |

What the environment does is written as parameters:

- the uuid is the `uuid` parameter of `Save`;
- a rejected driver command is the `fault` flag;
- whether `close` was given a callback is `hasCallback`.

Four things the code does that are easy to miss, all followed by the model:

- **`save` on failure.** A failed save keeps the assigned id: `ent.id` is set
  at lines 110-116, before any command is sent. `OrientStore.Store.Save`
  states `ent.data == AssignId(old(ent.data), uuid)` on every path.
- **Closed store.** `close` sets `dbinst` to null (line 87). Every later
  save, load, list and remove calls a method of that null `dbinst`, which throws a TypeError
  synchronously, so the callback never runs. The model returns the error
  `NoHandle` in that case.
- **Date fields.** `makeentp` stores a Date as it is (line 285). When the
  load template's value for that field is a Date, `makeent` hands the stored
  value to `JSON.parse` (line 302), which throws on a Date's text, so the
  whole load fails with the parse error (`Codec.DateFieldFails`). This
  assumes the driver returns the stored Date. Under a template whose value
  for the field is not a Date, the Date is copied back as it is.
- **Updates.** The update at line 121 is not limited to one row:
  - every row carrying the id is updated;
  - a save whose truthy `id` matches no row writes nothing and still succeeds
    (`Tables.UpdateMissingIsNoOp`).

## Model

| member | source | states |
|---|---|---|
| `Codec.TableName` | lib/orient-store.js:272-275 | base + "_" + name when the base is truthy, otherwise the name alone; the result depends on the canonical type only |
| `Codec.TableNameExamples` | test/orient.test.js:19 | base "moon" with name "bar" gives "moon_bar"; a missing or empty base gives the bare name "foo" |
| `Codec.TableNameCollision` | lib/orient-store.js:274 | the distinct types ("a_b", "c") and ("a", "b_c") share the table "a_b_c" |
| `Codec.TableNameInjective` | lib/orient-store.js:274 | when both bases are truthy and hold no underscore, equal table names mean equal types |
| `Codec.Fields` | lib/orient-store.js:279 | the fields `fields$()` lists are exactly the entity's keys not ending in `$` |
| `Codec.EncodeCell` | lib/orient-store.js:282-286 | a non-Date object or array becomes a string; any other value, Dates included, is copied; no cell is left an object or array |
| `Codec.EncodeRow` | lib/orient-store.js:277-290 | the row's keys are exactly `fields$()`; each cell is that field encoded; the row is flat |
| `Codec.EncodeCellParses` | lib/orient-store.js:283 | the text written for an object field parses back to that field's JSON image |
| `Codec.KindOf` | lib/orient-store.js:301-307 | a Date template value selects the Date decoding, any other object selects the JSON decoding, anything else the raw copy |
| `Codec.DecodeCell` | lib/orient-store.js:301-307 | a raw field is copied; an object field is `JSON.parse` of the cell; a Date field succeeds exactly when the parse does, and then yields a Date |
| `Codec.Present` | lib/orient-store.js:299-300 | a field is decoded exactly when the template declares it and the row's value for it is not undefined |
| `Codec.DecodeRow` | lib/orient-store.js:292-313 | decoding fails exactly when some present field's parse throws; otherwise its keys are the present fields and each value is that field's decoding |
| `Codec.DecodeKeys` | lib/orient-store.js:295-309 | a decoded entity holds only fields the template declares and the row has |
| `Codec.CellRoundTrip` | lib/orient-store.js:282-285 | decoding an encoded, defined, non-Date field against a template of the same kind gives the value back (an object as its JSON image) |
| `Codec.RowRoundTrip` | lib/orient-store.js:277-313 | `makeent(t, makeentp(d))` returns every defined field of `d`, as above, when `t` declares the same fields with agreeing kinds and no Date |
| `Codec.SelfRoundTrip` | lib/orient-store.js:277-313 | with the saved entity as its own template, fields of plain data (no Date, no undefined inside) come back exactly and undefined fields are dropped |
| `Codec.DateFieldFails` | lib/orient-store.js:282-302 | an entity with a Date in a field whose template value is a Date cannot be decoded from its own encoding |
| `Codec.DateTextDecodes` | lib/orient-store.js:302 | a Date-template field whose cell holds the JSON text of a valid Date decodes to that Date |
| `Codec.LenientCell` | lib/orient-store.js:191-197 | a string is replaced by its JSON parse when that succeeds and kept when it fails; other values are untouched |
| `Codec.LenientRow` | lib/orient-store.js:190-199 | the pass keeps the row's keys and sends every cell through the lenient step |
| `Codec.LenientRecovers` | lib/orient-store.js:189-194 | an object field written by `makeentp` is read back by the lenient pass as its JSON image |
| `Codec.LenientKeepsText` | lib/orient-store.js:193-197 | an example: the plain word "hello" is not JSON text and comes back unchanged (the general case is `Codec.LenientCell`'s third clause) |
| `Codec.LenientMisreads` | lib/orient-store.js:191-194 | the scalar string "42" is stored as written and listed as the number 42 |
| `Json.Stringify` | lib/orient-store.js:283 | `JSON.stringify` is undefined exactly for undefined, otherwise text |
| `Json.Parse` | lib/orient-store.js:194 | `JSON.parse` never produces undefined or a Date, at any depth (`Json.ValuePlain` and its companions prove it for every text) |
| `Json.ParseAny` | lib/orient-store.js:302-304 | `JSON.parse` of null, a boolean or a number gives the value back; of undefined, a plain object, a Date or an array it throws |
| `Json.PutPlain` | lib/orient-store.js:194 | a repeated key takes its last value without letting undefined or a Date into the object |
| `Json.PairRoundTrip` | lib/orient-store.js:194 | the `\uD8xx\uDCxx` escape pair of a character above U+FFFF reads back as that one character |
| `Json.StringifyParse` | lib/orient-store.js:283-304 | `JSON.parse(JSON.stringify(v))` succeeds on every defined value with distinct keys and gives its JSON image |
| `Json.RoundTrip` | lib/orient-store.js:283-304 | on plain values (no undefined, no Date inside) that round trip is the identity |
| `Dates.NewDate` | lib/orient-store.js:302 | `new Date(x)` always yields a Date |
| `Dates.TimeClip` | lib/orient-store.js:302 | a number is a valid time value exactly when it lies within ±8.64e15 ms, and is then kept |
| `Dates.ParseIso` | lib/orient-store.js:302 | `Date.parse` accepts only a time value in range whose ISO text is exactly the input |
| `Dates.ParseIsoComplete` | lib/orient-store.js:302 | `Date.parse` accepts the ISO text of every time value in range and gives that time value back |
| `Tables.Select` | lib/orient-store.js:180 | `where(q)` selects only rows agreeing with every filter key, and no more rows than the table holds |
| `Tables.SelectAppend` | lib/orient-store.js:180 | selection keeps storage order: selecting from two runs of rows gives the first run's selection followed by the second's |
| `Tables.Reject` | lib/orient-store.js:232 | the rows `delete ... where(q)` leaves all fail to match the filter, and there are no more of them than the table holds |
| `Tables.RejectAppend` | lib/orient-store.js:232 | the rows left keep storage order: leaving rows of two runs gives the first run's survivors followed by the second's |
| `Tables.SelectRejectPartition` | lib/orient-store.js:229-232 | the rows a filter selects and the rows it leaves are together the table, as a multiset |
| `Tables.SelectRejectComplete` | lib/orient-store.js:229-232 | every matching row is selected and every other row is left |
| `Tables.SelectEmptyFilter` | lib/orient-store.js:179-182 | an empty filter selects every row, so the select-all branch and `where({})` agree |
| `Tables.FirstWithId` | lib/orient-store.js:148 | the found row is a row of the table with the requested id; nothing is found exactly when no row has it |
| `Tables.FirstWithIdIsFirst` | lib/orient-store.js:148 | no earlier row carries the requested id |
| `Tables.IsUpdate` | lib/orient-store.js:106 | a save is an update exactly when `id` is present and not undefined, null, false, 0 or empty, so any truthy id, a number from `id$` included, updates |
| `Tables.AssignId` | lib/orient-store.js:106-116 | a truthy `id` is kept; otherwise `id` becomes `id$` when that is truthy, else the new uuid |
| `Tables.AssignIdEffect` | lib/orient-store.js:106-116 | after saving, the entity's id is truthy, so a second save is an update that keeps it; no other property changes |
| `Tables.Stored` | lib/orient-store.js:121-127 | the cells the driver is taken to write out of the `entp` handed to `.set`: every defined cell and no undefined one (a modelling choice, see "Left out") |
| `Tables.UpdateRows` | lib/orient-store.js:121 | every row carrying the entity's id takes the written cells; other rows are unchanged |
| `Tables.SaveRows` | lib/orient-store.js:120-131 | an update keeps the table's length and leaves every row with another id as it was; an insert keeps every row and appends the stored cells of the encoded entity |
| `Tables.UpdateMissingIsNoOp` | lib/orient-store.js:120-125 | an update whose id no row carries changes nothing |
| `Tables.InsertAppends` | lib/orient-store.js:126-131 | an insert appends one row holding the encoded defined fields and keeps the others |
| `Tables.LoadResult` | lib/orient-store.js:148-158 | null exactly on a miss; on a hit the load fails exactly when decoding the first row with the id fails, and otherwise yields that row's `makeent` decoding; the only error is a failed parse |
| `Tables.LoadMiss` | lib/orient-store.js:149-155 | loading an id no row carries gives null and no error |
| `Tables.InsertThenLoad` | lib/orient-store.js:118-155 | after inserting an entity with a new scalar id, loading that id against an agreeing template gives the entity's defined fields |
| `Tables.Listed` | lib/orient-store.js:178-183 | with no filter keys every row is read; otherwise only matching rows |
| `Tables.ListResult` | lib/orient-store.js:185-205 | one result per listed row, in order, each through the lenient pass; no parse failure surfaces |
| `Tables.ListedMatching` | lib/orient-store.js:178-183 | whatever the filter, the rows read are exactly those `where(q)` selects |
| `Tables.ListRecoversObjects` | lib/orient-store.js:187-201 | an object field written by `makeentp` is listed as its JSON image |
| `Tables.RemoveRows` | lib/orient-store.js:228-233 | an empty filter or a truthy `all$` empties the table; otherwise no matching row remains |
| `Tables.RemoveCount` | lib/orient-store.js:235-237 | the reported count is the table's size when everything is deleted, and never more than that size |
| `Tables.RemovesAll` | lib/orient-store.js:229 | an empty filter or `all$: true` deletes everything; a filter with keys but no `all$` never does |
| `Tables.RemoveAccounts` | lib/orient-store.js:228-237 | the count plus the rows left is the table's size; the rows left are rows of the table; every non-matching row is left |
| `Tables.RemoveAllOverridesFilter` | lib/orient-store.js:229 | a truthy `all$` empties the table and counts every row whatever other keys the filter holds |
| `Tables.RemoveFalsyAllKeepsRows` | lib/orient-store.js:229-232 | a defined but falsy `all$` goes into the where clause, matches no stored row, and nothing is removed |
| `OrientStore.LenientPass` | lib/orient-store.js:190-199 | the loop over a row's keys produces exactly the lenient row: same keys, non-strings untouched |
| `OrientStore.Entity.constructor` | lib/orient-store.js:201 | `make$` gives an entity of the template's type holding the given properties |
| `OrientStore.Store.constructor` | lib/orient-store.js:15-16 | a new store has no open database |
| `OrientStore.Store.Configure` | lib/orient-store.js:48-69 | the named database is created empty when the server lacks it and is then opened; an existing one is opened untouched |
| `OrientStore.Store.Close` | lib/orient-store.js:85-93 | the handle becomes null from any state, data stays, and the callback runs exactly when one is given, so closing twice equals closing once |
| `OrientStore.Store.Native` | lib/orient-store.js:247-249 | the handle itself is returned |
| `OrientStore.Store.Save` | lib/orient-store.js:103-133 | the id is assigned on every path; with no handle nothing is written; a driver fault writes nothing; otherwise the type's table is updated or appended to and the same entity is returned |
| `OrientStore.Store.Load` | lib/orient-store.js:142-160 | null on a miss, a parse failure as an error, otherwise a new entity of the template's type holding the decoded fields |
| `OrientStore.Store.List` | lib/orient-store.js:172-210 | one new entity of the template's type per listed row, in order, each holding the lenient row; only the driver can make it fail |
| `OrientStore.Store.Remove` | lib/orient-store.js:221-241 | the table becomes what `remove` leaves and the callback receives the count removed |

## Left out

- Floating-point numbers: numbers are integers. The JSON text has no fractions or exponents, and the parser rejects them.
- JSON strings holding a lone surrogate escape (`\uD800`-`\uDFFF` not part of a high-low pair) are rejected, because Dafny characters are Unicode scalar values and cannot hold one. JavaScript would keep the lone surrogate. So where `list` would turn such a cell into a string, the model's lenient pass keeps the cell's raw text. Escape pairs are decoded as in JavaScript.
- Numbers are unbounded integers, while JavaScript numbers are doubles:
  - an integer above 2^53 is exact in the model, but JavaScript rounds it ("9007199254740993" parses as 9007199254740992);
  - `JSON.stringify` writes integers of 1e21 and above in exponent form ("1e+21"), which the model neither writes nor parses.
- `Dates.ParseIso`: `Date.parse` accepts only the ISO text `toISOString` writes. Other formats read as an Invalid Date.
- `Json.ParseAny`: when `JSON.parse` is given an array, it parses the array's text (its elements joined by commas). The model treats that as a parse failure. It can only happen for a row cell the codec did not write.
- Sending a command, `.one()`, `.all()` and `.scalar()` are effects on the in-memory tables:
  - OrientDB's record metadata (`@rid`, `@class`, `@version`) is not modelled;
  - neither are its comparison rules, because a filter matches by value equality.
- `Json.Parse`: a parsed object keeps its keys in the order of the text, with a repeated key keeping its first place. JavaScript lists integer-like keys ("0", "1", ...) first, in ascending order, so `{"b":1,"0":2}` is listed with "0" first, and a later `JSON.stringify` writes it that way. The model keeps "b" first.
- `Tables.Stored`: lines 121 and 127 hand `.set` every cell of `entp`, undefined ones included. The driver is assumed to skip undefined cells, so in the model an update never clears a column: a field set to undefined keeps the stored value.
- `Dates.NewDate`: an array or object argument is turned into text by JavaScript before parsing, so `new Date(["2020-01-01T00:00:00.000Z"])` is a valid Date. The model gives an Invalid Date. Through line 302 this is reached when a Date-template field's cell holds the JSON text of a one-element array of ISO text.
- `Json.Stringify`: a `Value` is a finite tree, so a cyclic object cannot be expressed. In JavaScript `JSON.stringify` throws on one (line 283), and `save` then throws synchronously after the id has been assigned.
- `fault` stands for any rejected driver command. A rejected command is assumed to write nothing.
- Table names are compared exactly in the model, while OrientDB class names ignore case. So types `foo` and `FOO`, or bases differing only in case, share one class in OrientDB but have separate tables in the model. `Codec.TableNameInjective` is about table-name strings, not classes.
- Missing classes: in the model a table that does not exist yet reads as empty, and an insert creates it. OrientDB instead rejects a select, update or delete on a missing class, and the test setup requires the classes to exist already (test/orient.test.js:19). Only `fault` covers that rejection.
- `configure`: the network connection, the credentials and the unhandled rejection of `server.list`/`server.create` are not modelled. Configuring only creates the database if absent and opens it.
- `error`: the logging it does before calling back is not modelled (lines 20-28).
- The Seneca plugin wiring (`seneca.store.init`, `seneca.add`, `seneca.die`, lines 253-269) is not modelled. Neither is `canon$`, which is the `canon` field of an entity.
- Asynchrony and callbacks: each operation returns what its callback would receive. When the handle is null, `save`, `load`, `list` and `remove` throw synchronously in the source; the model returns the error `NoHandle` instead.
- test/orient.test.js hands the store to an external test suite against a live server. Only its setup note on the expected classes (line 19) is used, in `Codec.TableNameExamples`.
