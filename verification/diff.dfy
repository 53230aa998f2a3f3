/**
 * The schema-diff engine: `sanitizeRow`, `_diff` and the `diff`,
 * `diff.all`, `diff.creates`, `diff.drops` and `diff.alters` wrappers
 * (src/index.ts:464-633).
 *
 * Statements are records. A create or drop statement is the identity
 * header `{$diffType, entityType, name, schema, table}` with the row's
 * other fields spread over it; an alter statement is the header read from
 * the new row with one `{from, to}` entry per changed field.
 */
module SchemaDiff {
  import opened Wrappers
  import opened Values
  import opened Filters
  import opened Keys
  import opened Store

  /** Which groups of statements `_diff` emits. */
  datatype Mode = All | Create | Drop | CreateDrop | Alter

  predicate EmitsCreates(mode: Mode)
  {
    mode.All? || mode.Create? || mode.CreateDrop?
  }

  predicate EmitsDrops(mode: Mode)
  {
    mode.All? || mode.Drop? || mode.CreateDrop?
  }

  predicate EmitsAlters(mode: Mode)
  {
    mode.All? || mode.Alter?
  }

  /** The fields `ignoreChanges` names: the identity header of a row. */
  const Ignored: set<string> := {"entityType", "name", "schema", "table"}

  /** `sanitizeRow(row)`: the row without its header fields. */
  function Sanitize(row: Record): Record
  {
    map k | k in row && k !in Ignored :: row[k]
  }

  /** `{$diffType: tag, entityType, name, schema, table}`, read from a row. */
  function Header(tag: string, row: Record): Record
  {
    map[
      "$diffType" := Str(tag),
      "entityType" := Field(row, "entityType"),
      "name" := Field(row, "name"),
      "schema" := Field(row, "schema"),
      "table" := Field(row, "table")]
  }

  /** A create or drop statement: the header, then the sanitized row spread over it. */
  function Statement(tag: string, row: Record): Record
  {
    Header(tag, row) + Sanitize(row)
  }

  /** `{from, to}`. */
  function Change(from: Value, to: Value): Value
  {
    Obj(map["from" := from, "to" := to])
  }

  /**
   * The `changes` object built from the fields in `keys` of the old row:
   * one entry per non-header field whose new value is not deep-equal.
   */
  function ChangesOn(oldRow: Record, newRow: Record, keys: set<string>): map<string, Value>
    requires keys <= oldRow.Keys
  {
    map k | k in keys && k !in Ignored && !IsEqual(oldRow[k], Field(newRow, k)) :: Change(oldRow[k], Field(newRow, k))
  }

  /** `changes` over every field of the old row. */
  function Changes(oldRow: Record, newRow: Record): map<string, Value>
  {
    ChangesOn(oldRow, newRow, oldRow.Keys)
  }

  /** An alter statement: the header read from the new row, then the changes. */
  function AlterStatement(newRow: Record, changes: map<string, Value>): Record
  {
    Header("alter", newRow) + changes
  }

  /**
   * A create or drop statement carries the row's header fields and every
   * other field of the row unchanged, and nothing else; its `$diffType` is
   * the tag unless the row has a field of that name.
   */
  lemma StatementFields(tag: string, row: Record)
    ensures Statement(tag, row).Keys == {"$diffType"} + Ignored + (row.Keys - Ignored)
    ensures forall k | k in row && k !in Ignored :: Statement(tag, row)[k] == row[k]
    ensures forall k | k in Ignored :: Statement(tag, row)[k] == Field(row, k)
    ensures "$diffType" !in row ==> Statement(tag, row)["$diffType"] == Str(tag)
  {
    var h, body := Header(tag, row), Sanitize(row);
    assert h.Keys == {"$diffType"} + Ignored;
    assert body.Keys == row.Keys - Ignored;
    assert Statement(tag, row) == h + body;
  }

  /** A row has no non-header field that differs from the new row. */
  predicate Unchanged(oldRow: Record, newRow: Record)
  {
    forall k | k in oldRow && k !in Ignored :: IsEqual(oldRow[k], Field(newRow, k))
  }

  /** `isChanged` is set exactly when some non-header field of the old row differs. */
  lemma ChangesEmptyIff(oldRow: Record, newRow: Record)
    ensures Changes(oldRow, newRow) == map[] <==> Unchanged(oldRow, newRow)
  {
    if !Unchanged(oldRow, newRow) {
      var k :| k in oldRow && k !in Ignored && !IsEqual(oldRow[k], Field(newRow, k));
      assert k in Changes(oldRow, newRow);
    }
  }

  /**
   * An alter statement names exactly the non-header fields of the old row
   * that differ in the new row, each as `{from, to}`, under the new row's
   * header.
   */
  lemma AlterFields(oldRow: Record, newRow: Record)
    ensures forall k | k !in Ignored && k != "$diffType" ::
      k in AlterStatement(newRow, Changes(oldRow, newRow)) <==> k in oldRow && !IsEqual(oldRow[k], Field(newRow, k))
    ensures forall k | k in oldRow && k !in Ignored && !IsEqual(oldRow[k], Field(newRow, k)) ::
      AlterStatement(newRow, Changes(oldRow, newRow))[k] == Change(oldRow[k], Field(newRow, k))
    ensures forall k | k in Ignored :: AlterStatement(newRow, Changes(oldRow, newRow))[k] == Field(newRow, k)
  {
    var h, c := Header("alter", newRow), Changes(oldRow, newRow);
    var st := AlterStatement(newRow, c);
    assert h.Keys == {"$diffType"} + Ignored;
    forall k | k !in Ignored && k != "$diffType"
      ensures k in st <==> k in oldRow && !IsEqual(oldRow[k], Field(newRow, k))
    {
      assert k !in h;
    }
    forall k | k in oldRow && k !in Ignored && !IsEqual(oldRow[k], Field(newRow, k))
      ensures st[k] == Change(oldRow[k], Field(newRow, k))
    {
      assert k in c;
    }
    forall k | k in Ignored
      ensures st[k] == Field(newRow, k)
    {
      assert k !in c;
    }
  }

  /** Comparing a row with itself finds no change. */
  lemma ChangesOfSelf(row: Record)
    ensures Changes(row, row) == map[]
  {
    forall k | k in row && k !in Ignored
      ensures IsEqual(row[k], Field(row, k))
    {
      IsEqualReflexive(row[k]);
    }
    ChangesEmptyIff(row, row);
  }

  /**
   * A JS object used as a dictionary (`left`, `right`): its keys in
   * first-insertion order and the value at each. Composite keys always hold
   * ':', so none is an array index and insertion order is the property
   * order.
   */
  datatype Index = Index(keys: seq<string>, rows: map<string, Record>)

  predicate Distinct(ks: seq<string>)
  {
    forall i, j | 0 <= i < j < |ks| :: ks[i] != ks[j]
  }

  /** The order lists each key of the dictionary exactly once. */
  predicate WellFormed(idx: Index)
  {
    && Distinct(idx.keys)
    && (forall k | k in idx.rows :: k in idx.keys)
    && (forall k | k in idx.keys :: k in idx.rows)
  }

  /** The elements of a key sequence. */
  function SetOf(ks: seq<string>): set<string>
  {
    set k | k in ks
  }

  /**
   * `index[k] = row`: a new key goes last, a present key keeps its place
   * and takes the new row.
   */
  function Put(idx: Index, k: string, row: Record): Index
  {
    Index(if k in idx.rows then idx.keys else idx.keys + [k], idx.rows[k := row])
  }

  /** The dictionary filled by assigning rows[i] at ks[i], in order. */
  function Fill(ks: seq<string>, rows: seq<Record>): (idx: Index)
    requires |ks| == |rows|
    ensures WellFormed(idx)
    ensures forall k {:trigger k in idx.rows} :: k in idx.rows <==> k in ks
  {
    if ks == [] then Index([], map[])
    else
      var n := |ks| - 1;
      var idx := Fill(ks[..n], rows[..n]);
      assert ks == ks[..n] + [ks[n]];
      assert forall i | 0 <= i < |idx.keys| :: (idx.keys + [ks[n]])[i] == idx.keys[i];
      Put(idx, ks[n], rows[n])
  }

  /** The value at a key is the row assigned there last. */
  lemma {:induction false} FillHoldsLast(ks: seq<string>, rows: seq<Record>, i: nat)
    requires |ks| == |rows| && i < |ks|
    requires forall j | i < j < |ks| :: ks[j] != ks[i]
    ensures ks[i] in Fill(ks, rows).rows
    ensures Fill(ks, rows).rows[ks[i]] == rows[i]
  {
    var n := |ks| - 1;
    FillRowsStep(ks, rows);
    if i < n {
      var ks', rows' := ks[..n], rows[..n];
      assert forall j | i <= j < n :: ks'[j] == ks[j];
      assert rows'[i] == rows[i];
      FillHoldsLast(ks', rows', i);
    }
  }

  /** Filling one more key assigns its row over the dictionary filled so far. */
  lemma FillRowsStep(ks: seq<string>, rows: seq<Record>)
    requires |ks| == |rows| && ks != []
    ensures Fill(ks, rows).rows == Fill(ks[..|ks| - 1], rows[..|ks| - 1]).rows[ks[|ks| - 1] := rows[|ks| - 1]]
  {
  }

  /** With distinct keys, the order is the assignment order. */
  lemma {:induction false} FillDistinct(ks: seq<string>, rows: seq<Record>)
    requires |ks| == |rows| && Distinct(ks)
    ensures Fill(ks, rows).keys == ks
  {
    if ks != [] {
      var n := |ks| - 1;
      FreshLastKey(ks, rows);
      FillDistinct(ks[..n], rows[..n]);
      assert ks == ks[..n] + [ks[n]];
    }
  }

  /** `left` or `right`: each listed row assigned at its composite key. */
  function BuildIndex(rows: seq<Record>): (idx: Index)
    ensures WellFormed(idx)
    ensures forall k {:trigger k in idx.rows} :: k in idx.rows <==> k in IdentityKeys(rows)
  {
    Fill(IdentityKeys(rows), rows)
  }

  /** Indexing one more row is one more assignment. */
  lemma BuildIndexSnoc(rows: seq<Record>, x: Record)
    ensures BuildIndex(rows + [x]) == Put(BuildIndex(rows), CompositeKey(x), x)
  {
    var ks := IdentityKeys(rows + [x]);
    assert ks[..|rows|] == IdentityKeys(rows);
    assert (rows + [x])[..|rows|] == rows;
  }

  /** The dictionary holds, for each key, the last row that has it. */
  lemma IndexHoldsLastRow(rows: seq<Record>, i: nat)
    requires i < |rows|
    requires forall j | i < j < |rows| :: CompositeKey(rows[j]) != CompositeKey(rows[i])
    ensures CompositeKey(rows[i]) in BuildIndex(rows).rows
    ensures BuildIndex(rows).rows[CompositeKey(rows[i])] == rows[i]
  {
    FillHoldsLast(IdentityKeys(rows), rows, i);
  }

  /** A row's key is in the dictionary iff `findCompositeKey` finds a row for it. */
  lemma IndexedIffFound(rows: seq<Record>, x: Record)
    ensures CompositeKey(x) in BuildIndex(rows).rows <==> FindCompositeKey(rows, x).Some?
  {
    var ks := IdentityKeys(rows);
    if CompositeKey(x) in ks {
      var i :| 0 <= i < |ks| && ks[i] == CompositeKey(x);
      assert CompositeKey(rows[i]) == CompositeKey(x);
    }
  }

  /** With unique keys, the dictionary keeps every row, in list order. */
  lemma IndexOfUniqueRows(rows: seq<Record>)
    requires UniqueKeys(rows)
    ensures BuildIndex(rows).keys == IdentityKeys(rows)
    ensures forall i | 0 <= i < |rows| :: BuildIndex(rows).rows[CompositeKey(rows[i])] == rows[i]
  {
    var ks := IdentityKeys(rows);
    FillDistinct(ks, rows);
    forall i | 0 <= i < |rows|
      ensures BuildIndex(rows).rows[CompositeKey(rows[i])] == rows[i]
    {
      FillHoldsLast(ks, rows, i);
    }
  }

  /** The keys of ks that are not in s, in order. */
  function Outside(ks: seq<string>, s: set<string>): (r: seq<string>)
    ensures forall k {:trigger k in r} :: k in r <==> k in ks && k !in s
  {
    if ks == [] then []
    else
      var init, k := ks[..|ks| - 1], ks[|ks| - 1];
      assert ks == init + [k];
      Outside(init, s) + if k in s then [] else [k]
  }

  /** Deleting keys one set after another is deleting their union. */
  lemma {:induction false} OutsideTwice(ks: seq<string>, s: set<string>, t: set<string>)
    ensures Outside(Outside(ks, s), t) == Outside(ks, s + t)
  {
    if ks != [] {
      var init, k := ks[..|ks| - 1], ks[|ks| - 1];
      OutsideTwice(init, s, t);
      assert ks == init + [k];
      var o := Outside(init, s);
      if k !in s {
        assert Outside(ks, s) == o + [k];
        assert (o + [k])[..|o|] == o;
        assert Outside(o + [k], t) == Outside(o, t) + if k in t then [] else [k];
      } else {
        assert Outside(ks, s) == o;
      }
    }
  }

  /** One statement per key, in key order. */
  function Tagged(tag: string, ks: seq<string>, rows: map<string, Record>): (r: seq<Record>)
    requires forall k | k in ks :: k in rows
    ensures |r| == |ks|
    ensures forall i | 0 <= i < |ks| :: r[i] == Statement(tag, rows[ks[i]])
  {
    seq(|ks|, i requires 0 <= i < |ks| => Statement(tag, rows[ks[i]]))
  }

  lemma TaggedSnoc(tag: string, ks: seq<string>, k: string, rows: map<string, Record>)
    requires forall j | j in ks :: j in rows
    requires k in rows
    ensures Tagged(tag, ks + [k], rows) == Tagged(tag, ks, rows) + [Statement(tag, rows[k])]
  {
  }

  /** Only the rows at the listed keys matter. */
  lemma TaggedAgree(tag: string, ks: seq<string>, rows: map<string, Record>, rows': map<string, Record>)
    requires forall k | k in ks :: k in rows && k in rows' && rows[k] == rows'[k]
    ensures Tagged(tag, ks, rows) == Tagged(tag, ks, rows')
  {
  }

  /** Alter statements for the keys of ks present on both sides whose rows differ. */
  function AltersOver(ks: seq<string>, left: map<string, Record>, right: map<string, Record>): seq<Record>
    requires forall k | k in ks :: k in left
  {
    if ks == [] then []
    else
      var init, k := ks[..|ks| - 1], ks[|ks| - 1];
      assert forall j | j in init :: j in ks;
      AltersOver(init, left, right)
        + if k in right && Changes(left[k], right[k]) != map[] then
            [AlterStatement(right[k], Changes(left[k], right[k]))]
          else []
  }

  /** Only the old rows at the listed keys matter. */
  lemma {:induction false} AltersAgree(ks: seq<string>, left: map<string, Record>, left': map<string, Record>, right: map<string, Record>)
    requires forall k | k in ks :: k in left && k in left' && left[k] == left'[k]
    ensures AltersOver(ks, left, right) == AltersOver(ks, left', right)
  {
    if ks != [] {
      var init := ks[..|ks| - 1];
      assert forall j | j in init :: j in ks;
      AltersAgree(init, left, left', right);
    }
  }

  /** The drop statements: keys of the old dictionary missing from the new one. */
  function Dropped(left: Index, right: Index): seq<Record>
    requires WellFormed(left)
  {
    Tagged("drop", Outside(left.keys, right.rows.Keys), left.rows)
  }

  /** The create statements: keys of the new dictionary missing from the old one. */
  function Created(left: Index, right: Index): seq<Record>
    requires WellFormed(right)
  {
    Tagged("create", Outside(right.keys, left.rows.Keys), right.rows)
  }

  /** The alter statements: shared keys, in old order, whose rows differ. */
  function Altered(left: Index, right: Index): seq<Record>
    requires WellFormed(left)
  {
    AltersOver(left.keys, left.rows, right.rows)
  }

  /**
   * The filter `_diff` lists with: none for the whole store (no collection,
   * or `entities`), `{entityType: collection}` otherwise.
   */
  function SelectorFilter(collection: Option<string>): (f: Option<Filter>)
    ensures f.Some? ==> NullFree(f.value)
  {
    if collection.None? || collection.value == "entities" then None
    else Some(KindFilter(collection.value))
  }

  /** The rows `entities.list(...)` gives `_diff` for one store. */
  function DiffRows(coll: seq<Record>, collection: Option<string>): seq<Record>
  {
    Select(coll, None, SelectorFilter(collection))
  }

  /** The dictionary `_diff` builds for one store. */
  function Snapshot(coll: seq<Record>, collection: Option<string>): Index
  {
    BuildIndex(DiffRows(coll, collection))
  }

  /** `_diff(old, new, collection, mode)`: created, then dropped, then altered. */
  function DiffSpec(oldColl: seq<Record>, newColl: seq<Record>, collection: Option<string>, mode: Mode): seq<Record>
  {
    DiffOf(Snapshot(oldColl, collection), Snapshot(newColl, collection), mode)
  }

  /** The statements between two dictionaries: created, then dropped, then altered. */
  function DiffOf(left: Index, right: Index, mode: Mode): seq<Record>
    requires WellFormed(left) && WellFormed(right)
  {
    (if EmitsCreates(mode) then Created(left, right) else [])
      + (if EmitsDrops(mode) then Dropped(left, right) else [])
      + (if EmitsAlters(mode) then Altered(left, right) else [])
  }

  /** Every key is on both sides and every row equals itself. */
  lemma {:induction false} NoAltersAgainstItself(ks: seq<string>, rows: map<string, Record>)
    requires forall k | k in ks :: k in rows
    ensures AltersOver(ks, rows, rows) == []
  {
    if ks != [] {
      var init, k := ks[..|ks| - 1], ks[|ks| - 1];
      assert forall j | j in init :: j in ks;
      NoAltersAgainstItself(init, rows);
      ChangesOfSelf(rows[k]);
    }
  }

  /** A key sequence with no key outside s leaves nothing. */
  lemma NothingOutside(ks: seq<string>, s: set<string>)
    requires forall k | k in ks :: k in s
    ensures Outside(ks, s) == []
  {
  }

  /** Diffing a store against an identical one yields nothing, in every mode. */
  lemma IdenticalSnapshotsNoDiff(coll: seq<Record>, collection: Option<string>, mode: Mode)
    ensures DiffSpec(coll, coll, collection, mode) == []
  {
    var idx := Snapshot(coll, collection);
    NothingOutside(idx.keys, idx.rows.Keys);
    NoAltersAgainstItself(idx.keys, idx.rows);
  }

  /** One statement per row, in list order. */
  function StatementsFor(tag: string, rows: seq<Record>): (r: seq<Record>)
    ensures |r| == |rows|
    ensures forall i | 0 <= i < |rows| :: r[i] == Statement(tag, rows[i])
  {
    seq(|rows|, i requires 0 <= i < |rows| => Statement(tag, rows[i]))
  }

  /** The rows with no row of the same key among others, in list order. */
  function Unmatched(rows: seq<Record>, others: seq<Record>): seq<Record>
  {
    if rows == [] then []
    else
      var init, last := rows[..|rows| - 1], rows[|rows| - 1];
      Unmatched(init, others) + if FindCompositeKey(others, last).None? then [last] else []
  }

  /**
   * For each row that has a row of the same key among others and differs
   * from it, the alter statement, in list order.
   */
  function AltersRows(rows: seq<Record>, others: seq<Record>): seq<Record>
  {
    if rows == [] then []
    else
      var init, last := rows[..|rows| - 1], rows[|rows| - 1];
      AltersRows(init, others) + AlterFor(last, others)
  }

  /** The alter for one row: against the row of the same key among others, if any. */
  function AlterFor(x: Record, others: seq<Record>): seq<Record>
  {
    match FindCompositeKey(others, x)
    case None => []
    case Some(y) => if Changes(x, y) != map[] then [AlterStatement(y, Changes(x, y))] else []
  }

  lemma StatementsForSnoc(tag: string, rows: seq<Record>, x: Record)
    ensures StatementsFor(tag, rows + [x]) == StatementsFor(tag, rows) + [Statement(tag, x)]
  {
  }

  /** The rows whose key (ks[i] for rows[i]) is not in s, in order. */
  function PickOutside(ks: seq<string>, rows: seq<Record>, s: set<string>): seq<Record>
    requires |ks| == |rows|
  {
    if ks == [] then []
    else
      var n := |ks| - 1;
      PickOutside(ks[..n], rows[..n], s) + if ks[n] in s then [] else [rows[n]]
  }

  /**
   * The alters for rows[i] at key ks[i] against the dictionary right, in
   * order.
   */
  function AltersAt(ks: seq<string>, rows: seq<Record>, right: map<string, Record>): seq<Record>
    requires |ks| == |rows|
  {
    if ks == [] then []
    else
      var n := |ks| - 1;
      AltersAt(ks[..n], rows[..n], right)
        + if ks[n] in right && Changes(rows[n], right[ks[n]]) != map[] then
            [AlterStatement(right[ks[n]], Changes(rows[n], right[ks[n]]))]
          else []
  }

  /** The last of distinct keys is fresh for the dictionary of the others. */
  lemma FreshLastKey(ks: seq<string>, rows: seq<Record>)
    requires |ks| == |rows| && ks != [] && Distinct(ks)
    ensures Distinct(ks[..|ks| - 1])
    ensures ks[|ks| - 1] !in Fill(ks[..|ks| - 1], rows[..|ks| - 1]).rows
  {
  }

  /**
   * Filled with distinct keys, the statements of the keys outside s are
   * those of the rows picked in assignment order.
   */
  lemma {:induction false} FillOutside(tag: string, ks: seq<string>, rows: seq<Record>, s: set<string>)
    requires |ks| == |rows| && Distinct(ks)
    ensures var idx := Fill(ks, rows);
      Tagged(tag, Outside(idx.keys, s), idx.rows) == StatementsFor(tag, PickOutside(ks, rows, s))
  {
    if ks != [] {
      var n := |ks| - 1;
      FreshLastKey(ks, rows);
      FillOutside(tag, ks[..n], rows[..n], s);
      var idx0 := Fill(ks[..n], rows[..n]);
      OutsideStep(tag, idx0.keys, idx0.rows, ks[n], rows[n], s);
      StatementsForSnoc(tag, PickOutside(ks[..n], rows[..n], s), rows[n]);
    }
  }

  /** Filled with distinct keys, the alters follow the assignment order. */
  lemma {:induction false} FillAlters(ks: seq<string>, rows: seq<Record>, right: map<string, Record>)
    requires |ks| == |rows| && Distinct(ks)
    ensures var idx := Fill(ks, rows);
      AltersOver(idx.keys, idx.rows, right) == AltersAt(ks, rows, right)
  {
    if ks != [] {
      var n := |ks| - 1;
      FreshLastKey(ks, rows);
      FillAlters(ks[..n], rows[..n], right);
      var idx0 := Fill(ks[..n], rows[..n]);
      AltersStep(idx0.keys, idx0.rows, ks[n], rows[n], right);
    }
  }

  /** Assigning a fresh key appends at most one statement. */
  lemma OutsideStep(tag: string, ks: seq<string>, rows: map<string, Record>, k: string, x: Record, s: set<string>)
    requires forall j | j in ks :: j in rows
    requires k !in rows
    ensures Tagged(tag, Outside(ks + [k], s), rows[k := x])
      == Tagged(tag, Outside(ks, s), rows) + if k in s then [] else [Statement(tag, x)]
  {
    assert (ks + [k])[..|ks|] == ks;
    var o := Outside(ks, s);
    TaggedAgree(tag, o, rows, rows[k := x]);
    if k !in s {
      TaggedSnoc(tag, o, k, rows[k := x]);
    }
  }

  /** Assigning a fresh key appends at most one alter. */
  lemma AltersStep(ks: seq<string>, rows: map<string, Record>, k: string, x: Record, right: map<string, Record>)
    requires forall j | j in ks :: j in rows
    requires k !in rows
    ensures AltersOver(ks + [k], rows[k := x], right)
      == AltersOver(ks, rows, right)
        + if k in right && Changes(x, right[k]) != map[] then [AlterStatement(right[k], Changes(x, right[k]))] else []
  {
    assert (ks + [k])[..|ks|] == ks;
    AltersAgree(ks, rows, rows[k := x], right);
  }

  /** Unique composite keys are distinct identity keys. */
  lemma UniqueIdentityKeys(rows: seq<Record>)
    requires UniqueKeys(rows)
    ensures Distinct(IdentityKeys(rows))
  {
  }

  /** The identity keys of a list one row longer. */
  lemma IdentityKeysSnoc(rows: seq<Record>)
    requires rows != []
    ensures IdentityKeys(rows)[..|rows| - 1] == IdentityKeys(rows[..|rows| - 1])
    ensures IdentityKeys(rows)[|rows| - 1] == CompositeKey(rows[|rows| - 1])
  {
  }

  /** The unmatched rows are those whose key the other dictionary lacks. */
  lemma {:induction false} UnmatchedPicksOutside(rows: seq<Record>, others: seq<Record>)
    ensures Unmatched(rows, others) == PickOutside(IdentityKeys(rows), rows, BuildIndex(others).rows.Keys)
  {
    if rows != [] {
      var n := |rows| - 1;
      IdentityKeysSnoc(rows);
      UnmatchedPicksOutside(rows[..n], others);
      IndexedIffFound(others, rows[n]);
    }
  }

  /** With unique keys on the other side, the alters by lookup are the alters by dictionary. */
  lemma {:induction false} AltersRowsAt(rows: seq<Record>, others: seq<Record>)
    requires UniqueKeys(others)
    ensures AltersRows(rows, others) == AltersAt(IdentityKeys(rows), rows, BuildIndex(others).rows)
  {
    if rows != [] {
      var n := |rows| - 1;
      IdentityKeysSnoc(rows);
      AltersRowsAt(rows[..n], others);
      FoundIsIndexed(others, rows[n]);
    }
  }

  /**
   * With unique keys, the statements of the keys missing from the other
   * dictionary are those of the unmatched rows, in list order.
   */
  lemma OutsideInListOrder(tag: string, rows: seq<Record>, others: seq<Record>)
    requires UniqueKeys(rows)
    ensures var idx := BuildIndex(rows);
      Tagged(tag, Outside(idx.keys, BuildIndex(others).rows.Keys), idx.rows)
        == StatementsFor(tag, Unmatched(rows, others))
  {
    UniqueIdentityKeys(rows);
    FillOutside(tag, IdentityKeys(rows), rows, BuildIndex(others).rows.Keys);
    UnmatchedPicksOutside(rows, others);
  }

  /** With unique keys on both sides, the alters follow the old rows' list order. */
  lemma AlteredInListOrder(rows: seq<Record>, others: seq<Record>)
    requires UniqueKeys(rows) && UniqueKeys(others)
    ensures var idx := BuildIndex(rows);
      AltersOver(idx.keys, idx.rows, BuildIndex(others).rows) == AltersRows(rows, others)
  {
    UniqueIdentityKeys(rows);
    FillAlters(IdentityKeys(rows), rows, BuildIndex(others).rows);
    AltersRowsAt(rows, others);
  }

  /** With unique keys, the row `findCompositeKey` finds is the one the dictionary holds. */
  lemma FoundIsIndexed(rows: seq<Record>, x: Record)
    requires UniqueKeys(rows)
    ensures match FindCompositeKey(rows, x)
      case None => CompositeKey(x) !in BuildIndex(rows).rows
      case Some(y) => CompositeKey(x) in BuildIndex(rows).rows && BuildIndex(rows).rows[CompositeKey(x)] == y
  {
    IndexedIffFound(rows, x);
    if FindCompositeKey(rows, x).Some? {
      var i :| 0 <= i < |rows| && rows[i] == FindCompositeKey(rows, x).value && CompositeKey(rows[i]) == CompositeKey(x);
      IndexOfUniqueRows(rows);
    }
  }

  /**
   * On stores with unique keys: `diff` drops exactly the listed old rows
   * with no new row of the same key, creates exactly the listed new rows
   * with no old row of the same key, and alters exactly the listed old rows
   * whose new row differs, each group in list order.
   */
  lemma DiffGroupsInListOrder(oldColl: seq<Record>, newColl: seq<Record>, collection: Option<string>)
    requires UniqueKeys(oldColl) && UniqueKeys(newColl)
    ensures var oldRows, newRows := DiffRows(oldColl, collection), DiffRows(newColl, collection);
      var left, right := Snapshot(oldColl, collection), Snapshot(newColl, collection);
      && Dropped(left, right) == StatementsFor("drop", Unmatched(oldRows, newRows))
      && Created(left, right) == StatementsFor("create", Unmatched(newRows, oldRows))
      && Altered(left, right) == AltersRows(oldRows, newRows)
  {
    var oldRows, newRows := DiffRows(oldColl, collection), DiffRows(newColl, collection);
    SelectExactly(oldColl, None, SelectorFilter(collection));
    SelectExactly(newColl, None, SelectorFilter(collection));
    SubsequenceKeepsKeysUnique(oldRows, oldColl);
    SubsequenceKeepsKeysUnique(newRows, newColl);
    OutsideInListOrder("drop", oldRows, newRows);
    OutsideInListOrder("create", newRows, oldRows);
    AlteredInListOrder(oldRows, newRows);
  }

  /** A prefix one key longer. */
  lemma PrefixStep(ks: seq<string>, i: nat)
    requires i < |ks|
    ensures ks[..i + 1] == ks[..i] + [ks[i]]
    ensures SetOf(ks[..i + 1]) == SetOf(ks[..i]) + {ks[i]}
  {
    assert ks[..i + 1] == ks[..i] + [ks[i]];
  }

  /** The keys of a prefix are keys of the whole. */
  lemma PrefixMembers(ks: seq<string>, i: nat)
    requires i <= |ks|
    ensures forall k | k in ks[..i] :: k in ks
  {
  }

  /** `left` or `right`, filled by the `for ... of` loop over the listed rows. */
  method IndexRows(rows: seq<Record>) returns (idx: Index)
    ensures idx == BuildIndex(rows)
  {
    var keys: seq<string> := [];
    var table: map<string, Record> := map[];
    for i := 0 to |rows|
      invariant Index(keys, table) == BuildIndex(rows[..i])
    {
      assert rows[..i + 1] == rows[..i] + [rows[i]];
      BuildIndexSnoc(rows[..i], rows[i]);
      var k := CompositeKey(rows[i]);
      if k !in table {
        keys := keys + [k];
      }
      table := table[k := rows[i]];
    }
    assert rows[..|rows|] == rows;
    idx := Index(keys, table);
  }

  /** One more field of the old row considered. */
  lemma ChangesStep(oldRow: Record, newRow: Record, done: set<string>, k: string)
    requires done <= oldRow.Keys && k in oldRow && k !in done
    ensures ChangesOn(oldRow, newRow, done + {k}) ==
      if k !in Ignored && !IsEqual(oldRow[k], Field(newRow, k)) then
        ChangesOn(oldRow, newRow, done)[k := Change(oldRow[k], Field(newRow, k))]
      else
        ChangesOn(oldRow, newRow, done)
  {
  }

  /** The `changes` loop over the old row's entries, with its `isChanged` flag. */
  method ChangesOf(oldRow: Record, newRow: Record) returns (changes: map<string, Value>, isChanged: bool)
    ensures changes == Changes(oldRow, newRow)
    ensures isChanged <==> !Unchanged(oldRow, newRow)
  {
    changes, isChanged := map[], false;
    var pending := oldRow.Keys;
    while pending != {}
      invariant pending <= oldRow.Keys
      invariant changes == ChangesOn(oldRow, newRow, oldRow.Keys - pending)
      invariant isChanged <==> changes != map[]
      decreases |pending|
    {
      var k :| k in pending;
      ghost var done := oldRow.Keys - pending;
      ChangesStep(oldRow, newRow, done, k);
      assert done + {k} == oldRow.Keys - (pending - {k});
      pending := pending - {k};
      if k !in Ignored && !IsEqual(oldRow[k], Field(newRow, k)) {
        isChanged := true;
        changes := changes[k := Change(oldRow[k], Field(newRow, k))];
        assert k in changes;
      }
    }
    assert oldRow.Keys - pending == oldRow.Keys;
    ChangesEmptyIff(oldRow, newRow);
  }

  /** What the first i iterations of the main loop have built. */
  predicate ClassifiedUpTo(left: Index, right: Index, mode: Mode, i: nat,
                           dropped: seq<Record>, altered: seq<Record>, rest: Index)
    requires WellFormed(left) && i <= |left.keys|
  {
    PrefixMembers(left.keys, i);
    && dropped == (if EmitsDrops(mode) then Tagged("drop", Outside(left.keys[..i], right.rows.Keys), left.rows) else [])
    && altered == (if EmitsAlters(mode) then AltersOver(left.keys[..i], left.rows, right.rows) else [])
    && rest.keys == Outside(right.keys, SetOf(left.keys[..i]))
    && rest.rows == right.rows - SetOf(left.keys[..i])
  }

  /** The drop one key of the old dictionary gives. */
  function DropOf(left: Index, right: Index, mode: Mode, key: string): seq<Record>
    requires key in left.rows
  {
    if EmitsDrops(mode) && key !in right.rows then [Statement("drop", left.rows[key])] else []
  }

  /** The alter one key of the old dictionary gives. */
  function AlterOf(left: Index, right: Index, mode: Mode, key: string): seq<Record>
    requires key in left.rows
  {
    if EmitsAlters(mode) && key in right.rows && Changes(left.rows[key], right.rows[key]) != map[] then
      [AlterStatement(right.rows[key], Changes(left.rows[key], right.rows[key]))]
    else []
  }

  /**
   * Key i of the old dictionary is still in `right` iff it was there at the
   * start, and handling it extends what the loop has built by its drop and
   * its alter.
   */
  lemma ClassifyStep(left: Index, right: Index, mode: Mode, i: nat,
                     dropped: seq<Record>, altered: seq<Record>, rest: Index)
    requires WellFormed(left) && i < |left.keys|
    requires ClassifiedUpTo(left, right, mode, i, dropped, altered, rest)
    ensures var key := left.keys[i];
      && key in left.rows
      && (key in rest.rows <==> key in right.rows)
      && (key in rest.rows ==> rest.rows[key] == right.rows[key])
      && ClassifiedUpTo(left, right, mode, i + 1,
           dropped + DropOf(left, right, mode, key), altered + AlterOf(left, right, mode, key),
           Index(Outside(rest.keys, {key}), rest.rows - {key}))
  {
    var key, done := left.keys[i], left.keys[..i];
    PrefixStep(left.keys, i);
    PrefixMembers(left.keys, i + 1);
    assert key !in SetOf(done);
    OutsideSnoc("drop", done, key, left.rows, right.rows.Keys);
    AltersSnoc(done, key, left.rows, right.rows);
    OutsideTwice(right.keys, SetOf(done), {key});
    assert rest.rows - {key} == right.rows - SetOf(left.keys[..i + 1]);
  }

  /** A key assigned after ks adds its statement unless it is in s. */
  lemma OutsideSnoc(tag: string, ks: seq<string>, k: string, rows: map<string, Record>, s: set<string>)
    requires forall j | j in ks :: j in rows
    requires k in rows
    ensures Tagged(tag, Outside(ks + [k], s), rows)
      == Tagged(tag, Outside(ks, s), rows) + if k in s then [] else [Statement(tag, rows[k])]
  {
    assert (ks + [k])[..|ks|] == ks;
    if k !in s {
      TaggedSnoc(tag, Outside(ks, s), k, rows);
    }
  }

  /** A key after ks adds its alter, if any. */
  lemma AltersSnoc(ks: seq<string>, k: string, left: map<string, Record>, right: map<string, Record>)
    requires forall j | j in ks :: j in left
    requires k in left
    ensures AltersOver(ks + [k], left, right)
      == AltersOver(ks, left, right)
        + if k in right && Changes(left[k], right[k]) != map[] then [AlterStatement(right[k], Changes(left[k], right[k]))] else []
  {
    assert (ks + [k])[..|ks|] == ks;
  }

  /**
   * One iteration over `Object.entries(left)`: drop, or compare and alter,
   * then `delete right[key]`.
   */
  method ClassifyKey(left: Index, right: Index, mode: Mode, i: nat,
                     dropped: seq<Record>, altered: seq<Record>, rest: Index)
    returns (dropped': seq<Record>, altered': seq<Record>, rest': Index)
    requires WellFormed(left) && i < |left.keys|
    requires ClassifiedUpTo(left, right, mode, i, dropped, altered, rest)
    ensures ClassifiedUpTo(left, right, mode, i + 1, dropped', altered', rest')
  {
    var key := left.keys[i];
    ClassifyStep(left, right, mode, i, dropped, altered, rest);
    var oldRow := left.rows[key];
    dropped', altered' := dropped, altered;
    if key !in rest.rows {
      if EmitsDrops(mode) {
        dropped' := dropped + [Statement("drop", oldRow)];
      }
    } else if EmitsAlters(mode) {
      var newRow := rest.rows[key];
      var changes, isChanged := ChangesOf(oldRow, newRow);
      ChangesEmptyIff(oldRow, newRow);
      if isChanged {
        altered' := altered + [AlterStatement(newRow, changes)];
      }
    }
    rest' := Index(Outside(rest.keys, {key}), rest.rows - {key});
  }

  /** Before the loop nothing is built and `right` is whole. */
  lemma ClassifyStart(left: Index, right: Index, mode: Mode)
    requires WellFormed(left)
    ensures ClassifiedUpTo(left, right, mode, 0, [], [], right)
  {
    assert left.keys[..0] == [];
    assert SetOf([]) == {};
    assert right.rows - {} == right.rows;
    OutsideNone(right.keys);
  }

  /** After the loop the groups are complete and `right` holds the new keys only. */
  lemma ClassifyDone(left: Index, right: Index, mode: Mode, dropped: seq<Record>, altered: seq<Record>, rest: Index)
    requires WellFormed(left) && WellFormed(right)
    requires ClassifiedUpTo(left, right, mode, |left.keys|, dropped, altered, rest)
    ensures dropped == (if EmitsDrops(mode) then Dropped(left, right) else [])
    ensures altered == (if EmitsAlters(mode) then Altered(left, right) else [])
    ensures rest.keys == Outside(right.keys, left.rows.Keys)
    ensures forall k | k in rest.keys :: k in rest.rows && rest.rows[k] == right.rows[k]
  {
    assert left.keys[..|left.keys|] == left.keys;
    assert SetOf(left.keys) == left.rows.Keys;
  }

  /** The loop over `Object.entries(left)`. */
  method Classify(left: Index, right: Index, mode: Mode) returns (dropped: seq<Record>, altered: seq<Record>, rest: Index)
    requires WellFormed(left) && WellFormed(right)
    ensures dropped == (if EmitsDrops(mode) then Dropped(left, right) else [])
    ensures altered == (if EmitsAlters(mode) then Altered(left, right) else [])
    ensures rest.keys == Outside(right.keys, left.rows.Keys)
    ensures forall k | k in rest.keys :: k in rest.rows && rest.rows[k] == right.rows[k]
  {
    dropped, altered, rest := [], [], right;
    ClassifyStart(left, right, mode);
    for i := 0 to |left.keys|
      invariant ClassifiedUpTo(left, right, mode, i, dropped, altered, rest)
    {
      dropped, altered, rest := ClassifyKey(left, right, mode, i, dropped, altered, rest);
    }
    ClassifyDone(left, right, mode, dropped, altered, rest);
  }

  lemma {:induction false} OutsideNone(ks: seq<string>)
    ensures Outside(ks, {}) == ks
  {
    if ks != [] {
      OutsideNone(ks[..|ks| - 1]);
      assert ks == ks[..|ks| - 1] + [ks[|ks| - 1]];
    }
  }

  /** The loop over `Object.values(right)` once the matched keys are deleted. */
  method CreateAll(rest: Index) returns (created: seq<Record>)
    requires forall k | k in rest.keys :: k in rest.rows
    ensures created == Tagged("create", rest.keys, rest.rows)
  {
    created := [];
    for j := 0 to |rest.keys|
      invariant created == Tagged("create", rest.keys[..j], rest.rows)
    {
      assert rest.keys[..j + 1] == rest.keys[..j] + [rest.keys[j]];
      created := created + [Statement("create", rest.rows[rest.keys[j]])];
    }
    assert rest.keys[..|rest.keys|] == rest.keys;
  }

  /**
   * `_diff(dbOld, dbNew, collection, mode)`: lists both stores, indexes
   * them by composite key, then classifies.
   */
  method RunDiff(oldStore: CollectionStore, newStore: CollectionStore, collection: Option<string>, mode: Mode)
    returns (stmts: seq<Record>)
    ensures stmts == DiffSpec(oldStore.collection, newStore.collection, collection, mode)
  {
    var filter := SelectorFilter(collection);
    var leftRows := oldStore.List(None, filter);
    var rightRows := newStore.List(None, filter);
    var left := IndexRows(leftRows);
    var right := IndexRows(rightRows);
    var dropped, altered, rest := Classify(left, right, mode);
    var created := [];
    if EmitsCreates(mode) {
      created := CreateAll(rest);
      TaggedAgree("create", rest.keys, rest.rows, right.rows);
    }
    stmts := created + dropped + altered;
  }

  /** What each mode keeps of the three groups. */
  lemma DiffOfModes(left: Index, right: Index)
    requires WellFormed(left) && WellFormed(right)
    ensures DiffOf(left, right, All) == Created(left, right) + Dropped(left, right) + Altered(left, right)
    ensures DiffOf(left, right, CreateDrop) == Created(left, right) + Dropped(left, right)
    ensures DiffOf(left, right, Create) == Created(left, right)
    ensures DiffOf(left, right, Drop) == Dropped(left, right)
    ensures DiffOf(left, right, Alter) == Altered(left, right)
  {
    var c, d, a := Created(left, right), Dropped(left, right), Altered(left, right);
    assert c + d + [] == c + d;
    assert c + [] + [] == c;
    assert [] + d + [] == d;
    assert [] + [] + a == a;
  }

  /** `diff(dbOld, dbNew, collection)`: mode createdrop, so creates then drops and no alters. */
  method Diff(oldStore: CollectionStore, newStore: CollectionStore, collection: Option<string>)
    returns (stmts: seq<Record>)
    ensures var left, right := Snapshot(oldStore.collection, collection), Snapshot(newStore.collection, collection);
      stmts == Created(left, right) + Dropped(left, right)
  {
    stmts := RunDiff(oldStore, newStore, collection, CreateDrop);
    DiffOfModes(Snapshot(oldStore.collection, collection), Snapshot(newStore.collection, collection));
  }

  /** `diff.all`: creates, then drops, then alters. */
  method DiffAll(oldStore: CollectionStore, newStore: CollectionStore, collection: Option<string>)
    returns (stmts: seq<Record>)
    ensures var left, right := Snapshot(oldStore.collection, collection), Snapshot(newStore.collection, collection);
      stmts == Created(left, right) + Dropped(left, right) + Altered(left, right)
  {
    stmts := RunDiff(oldStore, newStore, collection, All);
    DiffOfModes(Snapshot(oldStore.collection, collection), Snapshot(newStore.collection, collection));
  }

  /** `diff.creates`: the creates only. */
  method Creates(oldStore: CollectionStore, newStore: CollectionStore, collection: Option<string>)
    returns (stmts: seq<Record>)
    ensures stmts == Created(Snapshot(oldStore.collection, collection), Snapshot(newStore.collection, collection))
  {
    stmts := RunDiff(oldStore, newStore, collection, Create);
    DiffOfModes(Snapshot(oldStore.collection, collection), Snapshot(newStore.collection, collection));
  }

  /** `diff.drops`: the drops only. */
  method Drops(oldStore: CollectionStore, newStore: CollectionStore, collection: Option<string>)
    returns (stmts: seq<Record>)
    ensures stmts == Dropped(Snapshot(oldStore.collection, collection), Snapshot(newStore.collection, collection))
  {
    stmts := RunDiff(oldStore, newStore, collection, Drop);
    DiffOfModes(Snapshot(oldStore.collection, collection), Snapshot(newStore.collection, collection));
  }

  /** `diff.alters`: the alters only. */
  method Alters(oldStore: CollectionStore, newStore: CollectionStore, collection: Option<string>)
    returns (stmts: seq<Record>)
    ensures stmts == Altered(Snapshot(oldStore.collection, collection), Snapshot(newStore.collection, collection))
  {
    stmts := RunDiff(oldStore, newStore, collection, Alter);
    DiffOfModes(Snapshot(oldStore.collection, collection), Snapshot(newStore.collection, collection));
  }

  /** With unique keys, `findCompositeKey` finds the one row of a key. */
  lemma FindsOwnRow(rows: seq<Record>, j: nat, x: Record)
    requires UniqueKeys(rows) && j < |rows|
    requires CompositeKey(x) == CompositeKey(rows[j])
    ensures FindCompositeKey(rows, x) == Some(rows[j])
  {
  }

  /** Rows whose keys all occur among the others leave nothing unmatched. */
  lemma {:induction false} NothingUnmatched(rows: seq<Record>, others: seq<Record>)
    requires forall j | 0 <= j < |rows| :: CompositeKey(rows[j]) in IdentityKeys(others)
    ensures Unmatched(rows, others) == []
  {
    if rows != [] {
      var n := |rows| - 1;
      assert forall j | 0 <= j < n :: rows[..n][j] == rows[j];
      NothingUnmatched(rows[..n], others);
      var last := rows[n];
      var ks := IdentityKeys(others);
      var k :| 0 <= k < |ks| && ks[k] == CompositeKey(last);
      assert CompositeKey(others[k]) == CompositeKey(last);
      assert FindCompositeKey(others, last).Some?;
      assert Unmatched(rows, others) == Unmatched(rows[..n], others);
    }
  }

  /**
   * When only row i of a list can give an alter, and it gives e, the first n
   * rows give e if they include row i and nothing otherwise.
   */
  lemma {:induction false} AltersOfOneRow(rows: seq<Record>, others: seq<Record>, i: nat, e: seq<Record>, n: nat)
    requires i < |rows| && n <= |rows|
    requires forall j | 0 <= j < |rows| :: AlterFor(rows[j], others) == if j == i then e else []
    ensures AltersRows(rows[..n], others) == if i < n then e else []
  {
    if n > 0 {
      assert rows[..n][..n - 1] == rows[..n - 1];
      assert rows[..n][n - 1] == rows[n - 1];
      AltersOfOneRow(rows, others, i, e, n - 1);
    }
  }

  /** Against the list with row i replaced, only row i can give an alter. */
  lemma AlterForReplaced(before: seq<Record>, i: nat, y: Record, j: nat)
    requires i < |before| && j < |before|
    requires UniqueKeys(before[i := y])
    requires CompositeKey(y) == CompositeKey(before[i])
    ensures AlterFor(before[j], before[i := y])
      == if j == i && Changes(before[i], y) != map[] then [AlterStatement(y, Changes(before[i], y))] else []
  {
    FindsOwnRow(before[i := y], j, before[j]);
    if j != i {
      ChangesOfSelf(before[j]);
    }
  }

  /** A row `_diff` lists for this collection: every row, or the rows of that kind. */
  predicate InSelection(x: Record, collection: Option<string>)
  {
    collection.None? || collection.value == "entities" || Field(x, "entityType") == Str(collection.value)
  }

  lemma InSelectionListed(x: Record, collection: Option<string>)
    ensures Listed(x, None, SelectorFilter(collection)) <==> InSelection(x, collection)
  {
    if SelectorFilter(collection).Some? {
      KindFilterMatches(x, collection.value);
    }
  }

  /**
   * Replacing row i of a store by a row of the same kind replaces it, at
   * the same place, in the rows `_diff` lists, or changes nothing there
   * when the row is not listed.
   */
  lemma DiffRowsReplace(before: seq<Record>, i: nat, y: Record, collection: Option<string>)
    requires i < |before|
    requires Field(y, "entityType") == Field(before[i], "entityType")
    ensures var rows, j := DiffRows(before, collection), |DiffRows(before[..i], collection)|;
      if InSelection(before[i], collection) then
        j < |rows| && rows[j] == before[i] && DiffRows(before[i := y], collection) == rows[j := y]
      else
        DiffRows(before[i := y], collection) == rows
  {
    var pre, x, post := before[..i], before[i], before[i + 1..];
    SplitAt(before, i, y);
    var p, q := DiffRows(pre, collection), DiffRows(post, collection);
    ListedAround(pre, x, post, collection);
    ListedAround(pre, y, post, collection);
    ReplaceBetween(DiffRows(before, collection), DiffRows(before[i := y], collection), p, x, y, q, InSelection(x, collection));
  }

  /** The rows `_diff` lists around one row are those before it, the row if listed, and those after it. */
  lemma ListedAround(pre: seq<Record>, x: Record, post: seq<Record>, collection: Option<string>)
    ensures DiffRows(pre + [x] + post, collection)
      == DiffRows(pre, collection) + (if InSelection(x, collection) then [x] else []) + DiffRows(post, collection)
  {
    var w := SelectorFilter(collection);
    SelectConcat(pre + [x], post, None, w);
    SelectSnoc(pre, x, None, w);
    InSelectionListed(x, collection);
  }

  lemma SplitAt(s: seq<Record>, i: nat, y: Record)
    requires i < |s|
    ensures s == s[..i] + [s[i]] + s[i + 1..]
    ensures s[i := y] == s[..i] + [y] + s[i + 1..]
  {
  }

  /** A listing around x, with x replaced by y, is the listing around y. */
  lemma ReplaceBetween(rows: seq<Record>, replaced: seq<Record>, p: seq<Record>, x: Record, y: Record, q: seq<Record>, listed: bool)
    requires rows == p + (if listed then [x] else []) + q
    requires replaced == p + (if listed then [y] else []) + q
    ensures if listed then |p| < |rows| && rows[|p|] == x && replaced == rows[|p| := y] else replaced == rows
  {
  }

  /**
   * Replacing one row by a row of the same key and kind: `diff.all`
   * reports one alter, naming the changed fields, when the row is listed
   * for the collection and some non-header field changed, and nothing
   * otherwise; the default `diff` reports nothing.
   */
  lemma OneRowChanged(before: seq<Record>, i: nat, y: Record, collection: Option<string>)
    requires UniqueKeys(before) && i < |before|
    requires CompositeKey(y) == CompositeKey(before[i])
    requires Field(y, "entityType") == Field(before[i], "entityType")
    ensures DiffSpec(before, before[i := y], collection, All)
      == if !InSelection(before[i], collection) || Unchanged(before[i], y) then []
         else [AlterStatement(y, Changes(before[i], y))]
    ensures DiffSpec(before, before[i := y], collection, CreateDrop) == []
  {
    var after := before[i := y];
    ReplaceSameKey(before, i, y);
    DiffRowsReplace(before, i, y, collection);
    if InSelection(before[i], collection) {
      var rows, j := DiffRows(before, collection), |DiffRows(before[..i], collection)|;
      SelectExactly(before, None, SelectorFilter(collection));
      SubsequenceKeepsKeysUnique(rows, before);
      ReplaceSameKey(rows, j, y);
      SameKeysNothingUnmatched(rows, rows[j := y]);
      SameKeysNothingUnmatched(rows[j := y], rows);
      DiffOfMatchedRows(before, after, collection);
      AltersOneRowAll(rows, j, y);
      ChangesEmptyIff(before[i], y);
    } else {
      IdenticalSnapshotsNoDiff(before, collection, All);
      IdenticalSnapshotsNoDiff(before, collection, CreateDrop);
    }
  }

  /** When every listed key is on both sides, only alters remain. */
  lemma DiffOfMatchedRows(oldColl: seq<Record>, newColl: seq<Record>, collection: Option<string>)
    requires UniqueKeys(oldColl) && UniqueKeys(newColl)
    requires Unmatched(DiffRows(oldColl, collection), DiffRows(newColl, collection)) == []
    requires Unmatched(DiffRows(newColl, collection), DiffRows(oldColl, collection)) == []
    ensures DiffSpec(oldColl, newColl, collection, All) == AltersRows(DiffRows(oldColl, collection), DiffRows(newColl, collection))
    ensures DiffSpec(oldColl, newColl, collection, CreateDrop) == []
  {
    DiffGroupsInListOrder(oldColl, newColl, collection);
    NoCreatesNoDrops(Snapshot(oldColl, collection), Snapshot(newColl, collection));
  }

  /** With nothing created or dropped, only the alters are left. */
  lemma NoCreatesNoDrops(left: Index, right: Index)
    requires WellFormed(left) && WellFormed(right)
    requires Created(left, right) == [] && Dropped(left, right) == []
    ensures DiffOf(left, right, All) == Altered(left, right)
    ensures DiffOf(left, right, CreateDrop) == []
  {
  }

  lemma AltersOneRowAll(before: seq<Record>, i: nat, y: Record)
    requires i < |before|
    requires UniqueKeys(before) && UniqueKeys(before[i := y])
    requires CompositeKey(y) == CompositeKey(before[i])
    ensures AltersRows(before, before[i := y])
      == if Changes(before[i], y) != map[] then [AlterStatement(y, Changes(before[i], y))] else []
  {
    var e := if Changes(before[i], y) != map[] then [AlterStatement(y, Changes(before[i], y))] else [];
    forall j | 0 <= j < |before|
      ensures AlterFor(before[j], before[i := y]) == if j == i then e else []
    {
      AlterForReplaced(before, i, y, j);
    }
    AltersOfOneRow(before, before[i := y], i, e, |before|);
    assert before[..|before|] == before;
  }

  /** Replacing a row by one of the same key keeps the keys. */
  lemma ReplaceSameKey(before: seq<Record>, i: nat, y: Record)
    requires UniqueKeys(before) && i < |before|
    requires CompositeKey(y) == CompositeKey(before[i])
    ensures IdentityKeys(before[i := y]) == IdentityKeys(before)
    ensures UniqueKeys(before[i := y])
  {
    var after := before[i := y];
    assert forall j | 0 <= j < |after| :: CompositeKey(after[j]) == CompositeKey(before[j]);
  }

  lemma SameKeysNothingUnmatched(rows: seq<Record>, others: seq<Record>)
    requires IdentityKeys(rows) == IdentityKeys(others)
    ensures Unmatched(rows, others) == []
  {
    var ks := IdentityKeys(rows);
    assert forall j | 0 <= j < |rows| :: CompositeKey(rows[j]) == ks[j];
    NothingUnmatched(rows, others);
  }

  /** A column row as `insert` stores it for kind `column = {type, pk}` in table `user`. */
  function ColumnRow(name: string, typ: string, pk: bool): Record
  {
    map["schema" := Null, "table" := Str("user"), "name" := Str(name),
        "type" := Str(typ), "pk" := Bool(pk), "entityType" := Str("column")]
  }

  lemma ColumnKey(name: string, typ: string, pk: bool)
    ensures CompositeKey(ColumnRow(name, typ, pk)) == ":user:" + name + ":column"
  {
  }

  lemma ColumnsUnique()
    ensures UniqueKeys([ColumnRow("id", "serial", true), ColumnRow("name", "varchar", false)])
  {
    ColumnKey("id", "serial", true);
    ColumnKey("name", "varchar", false);
    assert (":user:id:column")[6] != (":user:name:column")[6];
  }

  lemma TypeChanged()
    ensures Changes(ColumnRow("name", "varchar", false), ColumnRow("name", "text", false))
      == map["type" := Change(Str("varchar"), Str("text"))]
  {
    var x, y := ColumnRow("name", "varchar", false), ColumnRow("name", "text", false);
    var c := Changes(x, y);
    assert IsEqual(x["pk"], Field(y, "pk"));
    assert !IsEqual(x["type"], Field(y, "type"));
    assert c.Keys == {"type"};
  }

  /**
   * Changing column `name` of table `user` from varchar to text, next to an
   * unchanged column `id`: `diff.all` reports one alter carrying only
   * `type`, and the default `diff` reports nothing.
   */
  lemma ColumnTypeChange()
    ensures var id := ColumnRow("id", "serial", true);
      var before, after := [id, ColumnRow("name", "varchar", false)], [id, ColumnRow("name", "text", false)];
      && DiffSpec(before, after, Some("column"), All)
        == [AlterStatement(ColumnRow("name", "text", false), map["type" := Change(Str("varchar"), Str("text"))])]
      && DiffSpec(before, after, Some("column"), CreateDrop) == []
  {
    var id, x, y := ColumnRow("id", "serial", true), ColumnRow("name", "varchar", false), ColumnRow("name", "text", false);
    var before := [id, x];
    ColumnsUnique();
    ColumnKey("name", "varchar", false);
    ColumnKey("name", "text", false);
    assert before[1 := y] == [id, y];
    TypeChanged();
    assert !Unchanged(x, y) by {
      assert "type" in Changes(x, y);
      ChangesEmptyIff(x, y);
    }
    OneRowChanged(before, 1, y, Some("column"));
  }
}
