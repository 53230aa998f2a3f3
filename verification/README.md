# temu-sqlite runtime, modelled in Dafny

temu-sqlite is a small in-memory record store with a schema-diff engine. A
`SimpleDb` is built from a schema description: each kind of entity has its
declared fields. The kinds all share the common fields `schema`, `table` and
`name`. Every record lives in one ordered collection, tagged with its kind in
`entityType`. A record is identified by the composite key
`schema:table:name:entityType`.

The model has six modules:

- `Wrappers`: `Option` and `Result`.
- `Values`: JavaScript values as a datatype (numbers as integers), field reads
  where a missing key reads as `undefined`, and `isEqual`. Field reads see
  only a value's own keys (see "Left out").
- `Filters`: `matchesFilters` and `filterCollection`. Each filter entry is
  skipped, a `CONTAINS` test or a deep-equality test, exactly as the code
  classifies it.
- `Keys`: `getCompositeKey` as the colon-joined string, and
  `findCompositeKey`.
- `Store`: the collection as a class `CollectionStore` whose `collection`
  field the methods `Insert`, `Update` and `Delete` reassign and `List`
  only reads. A
  kind's accessor passes its own kind as the scope. The `entities` accessor
  passes no scope and the common configuration (`initSchemaProcessors`). Each
  method is proved against a specification function of the old collection.
- `SchemaDiff`: `_diff` and its wrappers. The `left`/`right` objects are
  modelled as dictionaries that keep first-insertion order, where a later
  assignment overwrites. `RunDiff` runs the loops of `_diff`: it fills the
  dictionaries, classifies each old key, deletes matched keys from `right` and
  creates what is left. It is proved equal to `DiffSpec`. Lemmas relate
  `DiffSpec` to the listed rows in list order, and prove identity and
  single-change scenarios.
- `Schema`: the constructor's validation and configuration loops (`Construct`),
  proved equal to `BuildConfigs`. Lemmas say when construction fails, which
  error it reports, and what each configuration holds.

Behaviour a reader might not expect, which the model follows as the code has it:

- An unscoped `delete` with no filter empties the store and returns `[]`.
  It does not return the removed records (src/index.ts:288-292).
- The default `diff` runs in mode `createdrop` (src/index.ts:602), so alters
  appear only through `diff.all` and `diff.alters`.
- Scope tests use JavaScript truthiness (`type ? … : …`), so a kind named `""`
  behaves as unscoped.
- A `CONTAINS` filter tests the truthiness of the element `find` returns, so
  it never matches a falsy element such as `""` (`ContainsEmptyStringNeverMatches`).
- `isEqual` compares an array with a plain object key by key, so `[]` equals
  `{}` (`ArrayEqualsIndexedObject`).

## Model

| member | source | states |
|---|---|---|
| Values.IsEqual | src/index.ts:471-489 | Deep equality; described by `IsEqualBasics`, `IsEqualArrays`, `IsEqualObjects`, `IsEqualKeyByKey`, `IsEqualSymmetric`, `IsEqualReflexive` and `IsEqualTruthy`. |
| Values.IsEqualBasics | src/index.ts:471-489 | Values of different `typeof` are never equal. `null` equals only `null` and `undefined` only `undefined`. Primitives are equal iff they are identical. |
| Values.IsEqualArrays | src/index.ts:474-477 | Two arrays are equal iff they have the same length and are equal element by element. |
| Values.IsEqualObjects | src/index.ts:479-486 | Two plain objects are equal iff they agree, deeply, on every key of either one; a missing key reads as `undefined`. |
| Values.IsEqualKeyByKey | src/index.ts:479-486 | Two non-null objects that are not both arrays (an array against a plain object included) are equal iff they agree on every own key of either. Only own keys are read: an array's `length` and inherited `Object.prototype` members are not. |
| Values.IsEqualSymmetric | src/index.ts:471-489 | `isEqual(a, b) == isEqual(b, a)` for all values. |
| Values.IsEqualReflexive | src/index.ts:471-489 | Every value is equal to itself (numbers are integers, so there is no NaN). |
| Values.IsEqualTruthy | src/index.ts:471-489 | Equal values have the same truthiness. |
| Values.ArrayEqualsIndexedObject | src/index.ts:474-486 | `[]` equals `{}` and `['x']` equals `{0: 'x'}`, but `[]` does not equal `null`. |
| Values.GetIndex | src/index.ts:476 | Reading an array at the decimal text of an index gives that element. |
| Values.NonDigitKeyMissing | src/index.ts:483-485 | An array has no own key that starts with a non-digit, and reading one gives `undefined`. Only own keys are read, so this holds for `length` too, where JavaScript would read the array's length. |
| Filters.Holds | src/index.ts:124-134 | One filter entry holds on a record; described by `ConstraintOf`, `ContainsHolds`, `LiteralHolds` and `UndefinedEntryIgnored`. |
| Filters.Matches | src/index.ts:123-137 | A record matches when every entry holds; described by `EmptyFilterMatchesAll`, `FilterCollection` and `FilterSnoc`. |
| Filters.ConstraintOf | src/index.ts:125-133 | A non-null filter entry is skipped iff it is `undefined`. It is a `CONTAINS` test iff it is an object whose `CONTAINS` is not `undefined`. Otherwise it is a literal compared with `isEqual`. |
| Filters.Find | src/index.ts:130 | `find` gives the first element deep-equal to the sought value, or `undefined` when there is none. |
| Filters.FilterCollection | src/index.ts:139-141 | The result holds exactly the records that match, in collection order (a subsequence). |
| Filters.FilterSnoc | src/index.ts:139-141 | Filtering one more record appends it iff it matches. |
| Filters.EmptyFilterMatchesAll | src/index.ts:123-137 | The empty filter keeps the whole collection. |
| Filters.UndefinedEntryIgnored | src/index.ts:125 | An `undefined` filter entry has the same effect as no entry. |
| Filters.ContainsHolds | src/index.ts:128-130 | A `CONTAINS: x` entry holds iff the field is an array, `x` is truthy and some element is deep-equal to `x`. |
| Filters.ContainsEmptyStringNeverMatches | src/index.ts:130 | `CONTAINS: ''` fails even on an array that holds `''`. |
| Filters.LiteralHolds | src/index.ts:131-133 | A literal entry holds iff the field is deep-equal to it. |
| Keys.CompositeKey | src/index.ts:147-151 | The colon-joined key; described by `NullCollapsesToEmpty`, `ColonsCollide` and `CompositeKeyInjective`. |
| Keys.FindCompositeKey | src/index.ts:153-158 | The result is none iff no record has the target's key. Otherwise it is the first record with that key. |
| Keys.NullCollapsesToEmpty | src/index.ts:150 | A `null`, empty or missing `schema` or `table` all give the same key. |
| Keys.ColonsCollide | src/index.ts:150 | Two different records can share a key when their components contain `:`. |
| Keys.CompositeKeyInjective | src/index.ts:150 | When schema, table and name contain no `:`, two records share a key iff their four components render alike. |
| Store.Candidate | src/index.ts:203-211 | The record `insert` builds; described by `CandidateFields`. |
| Store.CandidateFields | src/index.ts:203-211 | The record `insert` builds has every configured field, and every input field that is not `undefined`, with `entityType` set to the kind. Input values win over the nulls. |
| Store.KindFilterMatches | src/index.ts:230-234 | The filter `{entityType: kind}` matches exactly the records of that kind. |
| Store.Select | src/index.ts:224-240 | The records `list` returns; described by `SelectExactly`, `SelectSnoc`, `SelectConcat` and `SelectCounts`. |
| Store.SelectExactly | src/index.ts:229-238 | `list` returns exactly the records in the scope that match `where`, in collection order. |
| Store.SelectSnoc | src/index.ts:229-238 | Listing an empty store gives `[]`. Listing a store with one more record gives the old result, followed by that record iff it is in the scope and matches `where`. |
| Store.SelectConcat | src/index.ts:229-238 | Listing two stretches of a collection, one after the other, gives the listing of their concatenation. |
| Store.SelectCounts | src/index.ts:229-238 | Each record in the scope that matches `where` is returned as many times as the store holds it; any other record is not returned. |
| Store.TargetFilter | src/index.ts:248-253 | There is no target filter iff the call is unscoped and has no `where`. Any target filter is free of `null` literals. |
| Store.TargetFilterMatches | src/index.ts:248-253 | A record is a target iff it is of the scoped kind and matches `where` with its `entityType` entry overridden, or, unscoped, iff it matches `where`. |
| Store.NewValue | src/index.ts:262-264 | The new value of one `set` field; described by `TransformCases` and `UpdatedRecordFields`. |
| Store.TransformCases | src/index.ts:262-264 | A function update maps an array element by element. It leaves a `null` `string[]?` field `null`, and applies the function to any other value. |
| Store.UpdatedRecordFields | src/index.ts:258-266 | An updated record keeps its fields not named in `set` and has every `set` field at its new value; a literal is stored as given. |
| Store.UpdatedCollection | src/index.ts:255-266 | After `update`, each target is the updated record and each other record is unchanged, in the same positions. |
| Store.Targets | src/index.ts:255 | The targets are the collection's records the filter selects (all of them when there is no filter), in collection order; `TargetsSnoc` fixes their count. |
| Store.TargetsSnoc | src/index.ts:255 | With one more record in the collection, the targets gain that record at the end iff the filter selects it. |
| Store.UpdateAll | src/index.ts:258-268 | `update` returns one updated record per target, in target order. |
| Store.ReturnedRowsAreStored | src/index.ts:255-268 | Every record `update` returns is in the updated collection. |
| Store.Remaining | src/index.ts:294-297 | After `delete`, the store holds exactly the records that do not match, in order. |
| Store.DeletePartitions | src/index.ts:294-301 | The deleted and the kept records together are the old collection (as a multiset and by count). |
| Store.ScopedDeleteKeepsOtherKinds | src/index.ts:281-299 | A scoped `delete` keeps every record of the other kinds, in order. |
| Store.CollectionStore.constructor | src/index.ts:638-640 | A new store is empty. |
| Store.CollectionStore.Insert | src/index.ts:205-221 | On a key conflict nothing changes, and the first stored record with the key is returned with status CONFLICT. Otherwise the candidate is appended and returned with status OK. Unique keys stay unique. |
| Store.CollectionStore.List | src/index.ts:224-240 | Returns a record iff it is stored, of the scoped kind (when a kind is given) and matches `where` (when given). Each such record appears as often as it is stored, and in collection order. Nothing is changed. |
| Store.CollectionStore.Update | src/index.ts:247-269 | The new collection is `UpdatedCollection` of the old one, and the result is the updated targets. |
| Store.CollectionStore.Delete | src/index.ts:277-302 | With no filter, empties the store and returns nothing. Otherwise it returns the matching records and keeps the rest; unique keys stay unique. |
| Store.UpdateTargets | src/index.ts:255-268 | The nested update loops produce `UpdatedCollection` and `UpdateAll` of the input. |
| Store.UpdateRecordAt | src/index.ts:259-265 | One iteration extends the updated prefix by one record and the returned rows by that record when it is a target. |
| Store.ApplySet | src/index.ts:259-265 | The inner loop over `set` produces `UpdatedRecord`. |
| SchemaDiff.Sanitize | src/index.ts:491-495 | The row without its header fields; described by `StatementFields`. |
| SchemaDiff.StatementFields | src/index.ts:491-495 | A create or drop statement has the header fields read from the row, then every non-header field of the row unchanged, and nothing else. `$diffType` is the tag unless the row has a field of that name. |
| SchemaDiff.ChangesEmptyIff | src/index.ts:553-565 | `changes` is empty (so `isChanged` stays false) iff no non-header field of the old row differs from the new row. |
| SchemaDiff.AlterFields | src/index.ts:553-574 | An alter holds `{from, to}` for exactly the old row's non-header fields that are not deep-equal to the new row's, and its header is read from the new row. |
| SchemaDiff.ChangesOfSelf | src/index.ts:556-563 | A row compared with itself has no changes. |
| SchemaDiff.BuildIndexSnoc | src/index.ts:527-532 | Indexing one more row assigns it at its key: a new key goes last, and an existing key keeps its place and takes the new row. |
| SchemaDiff.FillHoldsLast | src/index.ts:527-532 | The dictionary holds, at each key, the row assigned there last. |
| SchemaDiff.FillDistinct | src/index.ts:527-532 | With distinct keys, the dictionary's key order is the assignment order. |
| SchemaDiff.IndexHoldsLastRow | src/index.ts:527-532 | The index holds each row at its key when no later row has the same key. |
| SchemaDiff.IndexedIffFound | src/index.ts:153-158 | A key is in the index iff `findCompositeKey` finds a row for it. |
| SchemaDiff.IndexOfUniqueRows | src/index.ts:527-532 | For rows with unique keys, the index lists the keys in row order and holds each row at its key. |
| SchemaDiff.OutsideTwice | src/index.ts:578 | Deleting one set of keys and then another leaves what deleting their union does. |
| SchemaDiff.SelectorFilter | src/index.ts:511-522 | The collection selector is passed as a null-free filter. |
| SchemaDiff.NoAltersAgainstItself | src/index.ts:552-576 | No alter is produced when the new dictionary is the old one. |
| SchemaDiff.IdenticalSnapshotsNoDiff | src/index.ts:497-596 | Diffing a collection against itself gives no statement in any mode. |
| SchemaDiff.DiffGroupsInListOrder | src/index.ts:527-595 | With unique keys, drops are the old rows with no key in the new list, in list order. Creates are the new rows with no key in the old list. Alters follow the old rows, each against its matching new row. |
| SchemaDiff.IndexRows | src/index.ts:527-532 | The `for … of` loop builds `BuildIndex` of the listed rows. |
| SchemaDiff.ChangesOf | src/index.ts:553-563 | The loop over the old row's entries builds `Changes`, and `isChanged` holds iff a field changed. |
| SchemaDiff.ClassifyStep | src/index.ts:538-579 | Handling one old key extends the drops and alters by that key's contribution and deletes the key from `right`. |
| SchemaDiff.ClassifyKey | src/index.ts:538-579 | One iteration of the loop over `left` keeps the loop invariant. |
| SchemaDiff.Classify | src/index.ts:538-579 | After the loop, drops and alters are the mode-gated `Dropped` and `Altered`, and `right` holds exactly the unmatched new keys, in order, with their rows. |
| SchemaDiff.CreateAll | src/index.ts:581-593 | The loop over `Object.values(right)` creates one statement per remaining key, in order. |
| SchemaDiff.DiffSpec | src/index.ts:497-596 | What `_diff` returns for two stores; described by `RunDiff`, `DiffGroupsInListOrder`, `IdenticalSnapshotsNoDiff`, `DiffOfMatchedRows` and `OneRowChanged`. |
| SchemaDiff.DiffOf | src/index.ts:538-595 | The created, dropped and altered groups, each gated by the mode; described by `DiffOfModes`. |
| SchemaDiff.DiffOfModes | src/index.ts:497-632 | Mode `all` keeps creates, drops and alters; `createdrop` keeps creates and drops; `create`, `drop` and `alter` keep their own group only. |
| SchemaDiff.RunDiff | src/index.ts:497-596 | `_diff` returns `DiffSpec`: created, then dropped, then altered, each gated by the mode. |
| SchemaDiff.Diff | src/index.ts:598-603 | `diff` returns creates then drops, with no alters. |
| SchemaDiff.DiffAll | src/index.ts:606-611 | `diff.all` returns creates, drops and alters. |
| SchemaDiff.Creates | src/index.ts:613-618 | `diff.creates` returns only creates. |
| SchemaDiff.Drops | src/index.ts:620-625 | `diff.drops` returns only drops. |
| SchemaDiff.Alters | src/index.ts:627-632 | `diff.alters` returns only alters. |
| SchemaDiff.DiffOfMatchedRows | src/index.ts:538-595 | When every key is on both sides, `all` gives only the alters and `createdrop` gives nothing. |
| SchemaDiff.DiffRowsReplace | src/index.ts:511-522 | Replacing one stored row by a row of the same kind replaces it, at the same position, in the rows `_diff` lists; if the row is not listed for the collection, the listed rows stay the same. |
| SchemaDiff.ListedAround | src/index.ts:511-522 | The rows `_diff` lists from a store split at one row are the listed rows before it, then that row if it is listed, then the listed rows after it. |
| SchemaDiff.OneRowChanged | src/index.ts:538-595 | In a store with unique keys, replacing one row by a row with the same key and kind gives one alter in mode `all`. That alter names the changed fields. There is no alter when the row is not listed for the collection or no non-header field changed. Mode `createdrop` gives nothing. |
| SchemaDiff.TypeChanged | src/index.ts:553-563 | Changing a column's type from varchar to text changes only `type`. |
| SchemaDiff.ColumnTypeChange | src/index.ts:538-595 | Two snapshots that differ in one column's type give one alter carrying only `type` in mode `all`, and nothing in `createdrop`. |
| Schema.BuildConfigs | src/index.ts:666-699 | The configurations the constructor builds, or its first error; described by `Construct`, `ConstructFailsIff`, `ConstructReportsFirst`, `ConfiguredKinds`, `LastEntryWins` and `ConstructedConfig`. |
| Schema.CloneFields | src/index.ts:671-693 | The loop over a kind's fields throws the first refused declaration's error, or returns every field at its resolved type. |
| Schema.Construct | src/index.ts:666-699 | The constructor's loops return `BuildConfigs`. |
| Schema.FieldsErrorNoneIff | src/index.ts:671-693 | A kind's fields pass iff none uses `required` on a non-common field and none declares a common field with any type other than `required`. |
| Schema.FieldsErrorIsFirst | src/index.ts:671-693 | The error reported is that of the first refused declaration. |
| Schema.ConstructFailsIff | src/index.ts:667-699 | Construction fails iff some kind is named `entities` or `_`, or declares a refused field. |
| Schema.ConstructReportsFirst | src/index.ts:667-699 | A failure reports the first offending kind's error, and every kind before it is clean. |
| Schema.ConfiguredKinds | src/index.ts:667-699 | The configured kinds are exactly the kinds of the definition. |
| Schema.LastEntryWins | src/index.ts:667-699 | A kind's configuration comes from its last entry. |
| Schema.OverlayFields | src/index.ts:671-674 | The cloned fields are exactly the declared fields. |
| Schema.LastDeclarationWins | src/index.ts:671-687 | A field's cloned type is its last declaration's, with `required` replaced by the common type. |
| Schema.ConstructKeepsCommon | src/index.ts:81-85 | On success every configuration has `schema`, `table` and `name` at their common types, and `entities` and `_` are never configured. |
| Schema.ConstructedConfig | src/index.ts:695-698 | On success a kind's configuration has exactly the common and the declared fields, each declared field at its last resolved type. |
| Schema.ReservedKindRefused | src/index.ts:669 | A kind named `entities` is refused with the illegal-name error. |
| Schema.RefusedFields | src/index.ts:675-691 | Redeclaring `name` as a string is a forbidden-key error, and `required` on `age` is a required-on-non-common error. |
| Schema.ColumnKindConfigured | src/index.ts:675-698 | `{column: {name: 'required', type: 'string'}}` configures `column` with the three common fields and `type`. |

## Left out

- Floating-point numbers: numbers are integers, so there is no NaN. The `a === b` shortcut in `isEqual` is left out, because without NaN it agrees with the structural comparison.
- Reference aliasing: records are values. `list` returning the store's own array, and `update` changing records that `list` returned earlier, are not modelled.
- Prototype-chain lookups: `fieldName in commonConfig` and `ignoreChanges[k]` are treated as membership in the object's own keys. A field named `constructor` or `toString` therefore behaves as an ordinary field.
- Property reads that are not own keys: the reads `a[k]`/`b[k]` in `isEqual`, `item[k]` in `matchesFilters` and `item[k]` in `update` see only own keys, and a missing key reads as `undefined`. In JavaScript such a read can reach an array's `length` or an `Object.prototype` member. So `isEqual([], {length: 0})` is true in JavaScript but false in the model, and `isEqual({toString: undefined}, {})` is false in JavaScript but true in the model. A filter entry `{length: n}` on an array field, or `{toString: …}`, is judged the same way.
- A `null` filter literal throws at `v.CONTAINS`. Every filter operation requires a filter without `null` literals. On a scoped accessor, `Update` and `Delete` therefore also refuse `where: {entityType: null}`. The source accepts that call, because the scope overwrites the entry before any filter reads it (src/index.ts:248-253, 281-286).
- Property order of result objects: records and statements are maps, so the order of properties in an inserted record (`{...nulls, ...input, entityType}`) or in a diff statement (header, then fields) is not modelled. Nothing the core computes depends on it.
- A function update on a `string[]?` field whose value is neither an array nor `null` throws. `Update` requires that no target has such a field.
- Variadic insert: `insert` reads only its first argument. The model takes one record, so the two-record call in test/temu-sqlite.test.ts:23-39 inserts only the first.
- The runtime `insert` on the `entities` accessor, which tags records with the kind `entities`, is not modelled.
- The unused helper `replaceValue` is not modelled.
- Type-level machinery (`InferField`, `GenerateProcessors`, the diff statement types) has no runtime behaviour and is not modelled.
- `initSchemaProcessors` builds closures. The model instead passes the kind as the scope and the configuration as parameters of the store's methods.
- Key collisions after `update`: `update` does no conflict check, so unique keys are not preserved. The list-order lemmas of `_diff` require unique keys. `RunDiff` itself needs none: it models a duplicate key overwriting the index.
- Schema.Construct: a JavaScript object has no duplicate keys. The model takes an entry list and, like `Object.fromEntries`, lets a later duplicate win.
- Field types are kept as values. Nested shapes are not checked, just as the constructor does not check them.
