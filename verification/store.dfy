/**
 * The collection store and the operations generated for each kind:
 * `generateInsert`, `generateList`, `generateUpdate` and `generateDelete`
 * (src/index.ts:198-303).
 *
 * A kind's accessor `db.K` works with scope `Some(K)` and K's configuration;
 * the `entities` accessor works with scope `None` and the common
 * configuration (src/index.ts:314-329).
 */
module Store {
  import opened Wrappers
  import opened Values
  import opened Filters
  import opened Keys

  /**
   * A kind's field configuration: field name to declared type. A type tag
   * such as "string[]?" is a string value; nested shapes are kept as given.
   */
  type Config = map<string, Value>

  datatype Status = Ok | Conflict

  datatype InsertResult = InsertResult(status: Status, data: Record)

  /** An entry of `update`'s `set`: a literal, or a transform function. */
  datatype UpdateOp = Set(value: Value) | Map(f: Value -> Value)

  /**
   * The record `insert` builds: every configured field null, overlaid with
   * the input's fields that are not undefined, tagged with the kind.
   */
  function Candidate(config: Config, kind: string, input: Record): Record
  {
    (map k | k in config :: Null)
      + (map k | k in input && !input[k].Undefined? :: input[k])
      + map["entityType" := Str(kind)]
  }

  /** Field by field, the record `insert` builds. */
  lemma CandidateFields(config: Config, kind: string, input: Record)
    ensures var r := Candidate(config, kind, input);
      && r.Keys == config.Keys + (set k | k in input && !input[k].Undefined?) + {"entityType"}
      && r["entityType"] == Str(kind)
      && (forall k | k in input && !input[k].Undefined? && k != "entityType" :: r[k] == input[k])
      && (forall k | k in config && k != "entityType" && (k !in input || input[k].Undefined?) :: r[k] == Null)
  {
  }

  /** `type ? ... : ...`: a missing kind, and the empty kind name, scope nothing. */
  predicate Scoped(kind: Option<string>)
  {
    kind.Some? && kind.value != ""
  }

  /** `{entityType: kind}`. */
  function KindFilter(kind: string): Filter
  {
    map["entityType" := Str(kind)]
  }

  /** A record matches `{entityType: kind}` iff its tag is that kind. */
  lemma KindFilterMatches(x: Record, kind: string)
    ensures NullFree(KindFilter(kind))
    ensures Matches(x, KindFilter(kind)) <==> Field(x, "entityType") == Str(kind)
  {
    var f := KindFilter(kind);
    IsEqualBasics(Field(x, "entityType"), Str(kind));
    assert ConstraintOf(Str(kind)) == EqualsLiteral(Str(kind));
    if Matches(x, f) {
      assert Holds(x, "entityType", f["entityType"]);
    }
    if Holds(x, "entityType", Str(kind)) {
      forall k | k in f ensures Holds(x, k, f[k]) {
        assert k == "entityType";
      }
    }
  }

  /**
   * The records `list(where)` returns: those of the kind when scoped, then
   * those matching `where` when it is given.
   */
  function Select(coll: seq<Record>, kind: Option<string>, where: Option<Filter>): (rows: seq<Record>)
    requires where.Some? ==> NullFree(where.value)
  {
    var from := if Scoped(kind) then FilterCollection(coll, KindFilter(kind.value)) else coll;
    if where.None? then from else FilterCollection(from, where.value)
  }

  /** r is a subsequence of s, and s of t: then r is one of t. */
  lemma {:induction false} SubsequenceTransitive(r: seq<Record>, s: seq<Record>, t: seq<Record>)
    requires IsSubsequence(r, s) && IsSubsequence(s, t)
    ensures IsSubsequence(r, t)
    decreases |t|, |s|
  {
    if r == [] {
    } else if s[|s| - 1] == t[|t| - 1] && IsSubsequence(s[..|s| - 1], t[..|t| - 1]) {
      if r[|r| - 1] == s[|s| - 1] && IsSubsequence(r[..|r| - 1], s[..|s| - 1]) {
        SubsequenceTransitive(r[..|r| - 1], s[..|s| - 1], t[..|t| - 1]);
      } else {
        SubsequenceTransitive(r, s[..|s| - 1], t[..|t| - 1]);
      }
    } else {
      SubsequenceTransitive(r, s, t[..|t| - 1]);
    }
  }

  /**
   * `list(where)` returns exactly the records in scope that match, in
   * collection order.
   */
  lemma SelectExactly(coll: seq<Record>, kind: Option<string>, where: Option<Filter>)
    requires where.Some? ==> NullFree(where.value)
    ensures forall x :: x in Select(coll, kind, where) <==>
      && x in coll
      && (Scoped(kind) ==> Field(x, "entityType") == Str(kind.value))
      && (where.Some? ==> Matches(x, where.value))
    ensures IsSubsequence(Select(coll, kind, where), coll)
  {
    forall x
      ensures x in Select(coll, kind, where) <==>
        && x in coll
        && (Scoped(kind) ==> Field(x, "entityType") == Str(kind.value))
        && (where.Some? ==> Matches(x, where.value))
    {
      if Scoped(kind) {
        KindFilterMatches(x, kind.value);
      }
    }
    if Scoped(kind) && where.Some? {
      var from := FilterCollection(coll, KindFilter(kind.value));
      SubsequenceTransitive(FilterCollection(from, where.value), from, coll);
    } else if !Scoped(kind) && where.None? {
      SubsequenceReflexive(coll);
    }
  }

  /** A record `list(where)` returns: of the kind when scoped, matching `where` when given. */
  predicate Listed(x: Record, kind: Option<string>, where: Option<Filter>)
    requires where.Some? ==> NullFree(where.value)
  {
    && (Scoped(kind) ==> Field(x, "entityType") == Str(kind.value))
    && (where.Some? ==> Matches(x, where.value))
  }

  /** Listing an empty store gives nothing; one more record is listed last iff it is listed at all. */
  lemma SelectSnoc(coll: seq<Record>, x: Record, kind: Option<string>, where: Option<Filter>)
    requires where.Some? ==> NullFree(where.value)
    ensures Select([], kind, where) == []
    ensures Select(coll + [x], kind, where) == Select(coll, kind, where) + if Listed(x, kind, where) then [x] else []
  {
    if Scoped(kind) {
      var f := KindFilter(kind.value);
      KindFilterMatches(x, kind.value);
      FilterSnoc(coll, x, f);
      if where.Some? {
        FilterSnoc(FilterCollection(coll, f), x, where.value);
      }
    } else if where.Some? {
      FilterSnoc(coll, x, where.value);
    }
  }

  /**
   * `list(where)` returns each listed record as many times as the store
   * holds it, and no other record.
   */
  lemma {:induction false} SelectCounts(coll: seq<Record>, kind: Option<string>, where: Option<Filter>)
    requires where.Some? ==> NullFree(where.value)
    ensures forall x :: multiset(Select(coll, kind, where))[x] == if Listed(x, kind, where) then multiset(coll)[x] else 0
  {
    if coll == [] {
      SelectSnoc([], map[], kind, where);
    } else {
      var init, last := coll[..|coll| - 1], coll[|coll| - 1];
      assert coll == init + [last];
      SelectCounts(init, kind, where);
      SelectSnoc(init, last, kind, where);
    }
  }

  /** Listing two stretches of the store one after the other lists their concatenation. */
  lemma {:induction false} SelectConcat(a: seq<Record>, b: seq<Record>, kind: Option<string>, where: Option<Filter>)
    requires where.Some? ==> NullFree(where.value)
    ensures Select(a + b, kind, where) == Select(a, kind, where) + Select(b, kind, where)
  {
    if b == [] {
      assert a + b == a;
      SelectSnoc(a, map[], kind, where);
    } else {
      var init, last := b[..|b| - 1], b[|b| - 1];
      assert b == init + [last];
      assert a + b == (a + init) + [last];
      SelectConcat(a, init, kind, where);
      SelectSnoc(a + init, last, kind, where);
      SelectSnoc(init, last, kind, where);
    }
  }

  lemma {:induction false} SubsequenceReflexive(s: seq<Record>)
    ensures IsSubsequence(s, s)
  {
    if s != [] {
      SubsequenceReflexive(s[..|s| - 1]);
    }
  }

  /**
   * The filter `update` and `delete` use: when scoped, the caller's filter
   * with entityType overridden by the kind; otherwise the caller's filter.
   */
  function TargetFilter(kind: Option<string>, where: Option<Filter>): (f: Option<Filter>)
    requires where.Some? ==> NullFree(where.value)
    ensures f.Some? ==> NullFree(f.value)
    ensures f.None? <==> !Scoped(kind) && where.None?
  {
    if Scoped(kind) then Some((if where.Some? then where.value else map[]) + KindFilter(kind.value))
    else where
  }

  /** The records `update` and `delete` act on: all of them when there is no filter at all. */
  predicate IsTarget(x: Record, filter: Option<Filter>)
    requires filter.Some? ==> NullFree(filter.value)
  {
    filter.None? || Matches(x, filter.value)
  }

  /**
   * A scoped target is a record of the kind that matches the caller's
   * filter apart from its entityType entry, which the kind overrides.
   */
  lemma TargetFilterMatches(x: Record, kind: Option<string>, where: Option<Filter>)
    requires where.Some? ==> NullFree(where.value)
    ensures IsTarget(x, TargetFilter(kind, where)) <==>
      if Scoped(kind) then
        Field(x, "entityType") == Str(kind.value) && (where.Some? ==> Matches(x, where.value - {"entityType"}))
      else
        where.Some? ==> Matches(x, where.value)
  {
    if Scoped(kind) {
      var w := if where.Some? then where.value else map[];
      var f := w + KindFilter(kind.value);
      KindFilterMatches(x, kind.value);
      assert f["entityType"] == Str(kind.value);
      if Matches(x, f) {
        assert Holds(x, "entityType", f["entityType"]);
        assert forall k | k in w - {"entityType"} :: k in f && f[k] == w[k];
      }
      if Field(x, "entityType") == Str(kind.value) && (where.Some? ==> Matches(x, where.value - {"entityType"})) {
        forall k | k in f ensures Holds(x, k, f[k]) {
          if k == "entityType" {
            assert Holds(x, k, KindFilter(kind.value)[k]);
          } else {
            assert k in w - {"entityType"};
          }
        }
      }
    }
  }

  /** `config[k] === 'string[]?'`. */
  predicate IsNullableStringArray(config: Config, k: string)
  {
    k in config && config[k] == Str("string[]?")
  }

  /**
   * A transform on a field configured "string[]?" calls `target.map`, which
   * throws unless the value is an array or null.
   */
  predicate Applicable(config: Config, updates: map<string, UpdateOp>, item: Record)
  {
    forall k | k in updates && updates[k].Map? && IsNullableStringArray(config, k) ::
      Field(item, k).Arr? || Field(item, k).Null?
  }

  /** `xs.map(f)`. */
  function MapElements(f: Value -> Value, xs: seq<Value>): (ys: seq<Value>)
    ensures |ys| == |xs| && forall j | 0 <= j < |xs| :: ys[j] == f(xs[j])
  {
    if xs == [] then [] else [f(xs[0])] + MapElements(f, xs[1..])
  }

  /**
   * The value one `set` entry gives a field whose current value is
   * `current`: a literal overwrites it; a transform is applied to each
   * element of an array, leaves null alone on a "string[]?" field, and is
   * applied to the whole value otherwise. Where `target.map` would throw
   * (see `Applicable`), which `update`'s precondition rules out, the value
   * is left as it was.
   */
  function NewValue(config: Config, k: string, op: UpdateOp, current: Value): Value
  {
    match op
    case Set(v) => v
    case Map(f) =>
      if current.Arr? then Arr(MapElements(f, current.items))
      else if IsNullableStringArray(config, k) then current
      else f(current)
  }

  /** The record with the keys in `keys` rewritten by their `set` entries. */
  function Rewritten(config: Config, updates: map<string, UpdateOp>, item: Record, keys: set<string>): Record
    requires keys <= updates.Keys
  {
    item + map k | k in keys :: NewValue(config, k, updates[k], Field(item, k))
  }

  /** Rewriting one more key: the key still holds its original value until then. */
  lemma RewrittenStep(config: Config, updates: map<string, UpdateOp>, item: Record, keys: set<string>, k: string)
    requires keys <= updates.Keys && k in updates && k !in keys
    ensures Field(Rewritten(config, updates, item, keys), k) == Field(item, k)
    ensures Rewritten(config, updates, item, keys + {k})
      == Rewritten(config, updates, item, keys)[k := NewValue(config, k, updates[k], Field(item, k))]
  {
    var before := Rewritten(config, updates, item, keys);
    var after := Rewritten(config, updates, item, keys + {k});
    var stepped := before[k := NewValue(config, k, updates[k], Field(item, k))];
    assert after.Keys == stepped.Keys;
    forall j | j in after ensures after[j] == stepped[j] {
    }
  }

  /** A target after `update`: each key of `set` rewritten, every other key kept. */
  function UpdatedRecord(config: Config, updates: map<string, UpdateOp>, item: Record): Record
  {
    Rewritten(config, updates, item, updates.Keys)
  }

  /**
   * On a target, `update` changes only the keys named in `set`; a literal
   * overwrites its key.
   */
  lemma UpdatedRecordFields(config: Config, updates: map<string, UpdateOp>, item: Record)
    ensures var r := UpdatedRecord(config, updates, item);
      && r.Keys == item.Keys + updates.Keys
      && (forall k | k in item && k !in updates :: r[k] == item[k])
      && (forall k | k in updates && updates[k].Set? :: r[k] == updates[k].value)
      && (forall k | k in updates :: r[k] == NewValue(config, k, updates[k], Field(item, k)))
  {
  }

  /**
   * A transform maps each element of an array; leaves null alone on a
   * "string[]?" field; and is applied to the whole value otherwise.
   */
  lemma TransformCases(config: Config, k: string, f: Value -> Value, current: Value)
    requires IsNullableStringArray(config, k) ==> current.Arr? || current.Null?
    ensures current.Arr? ==>
      var r := NewValue(config, k, Map(f), current);
      r.Arr? && |r.items| == |current.items| && forall j | 0 <= j < |r.items| :: r.items[j] == f(current.items[j])
    ensures current.Null? && IsNullableStringArray(config, k) ==> NewValue(config, k, Map(f), current) == Null
    ensures !current.Arr? && !IsNullableStringArray(config, k) ==> NewValue(config, k, Map(f), current) == f(current)
  {
  }

  /** Every record `update` will act on can take the transforms. */
  predicate ApplicableToTargets(coll: seq<Record>, config: Config, updates: map<string, UpdateOp>, filter: Option<Filter>)
    requires filter.Some? ==> NullFree(filter.value)
  {
    forall x {:trigger Applicable(config, updates, x)} | x in coll && IsTarget(x, filter) :: Applicable(config, updates, x)
  }

  /** One record after `update`: rewritten when it is a target, as it was otherwise. */
  function UpdatedOne(config: Config, updates: map<string, UpdateOp>, filter: Option<Filter>, x: Record): Record
    requires filter.Some? ==> NullFree(filter.value)
  {
    if IsTarget(x, filter) then UpdatedRecord(config, updates, x) else x
  }

  /**
   * The collection after `update`: the same length and order, every record
   * that is not a target as it was and every target rewritten in place.
   */
  function UpdatedCollection(coll: seq<Record>, config: Config, updates: map<string, UpdateOp>, filter: Option<Filter>): (r: seq<Record>)
    requires filter.Some? ==> NullFree(filter.value)
    ensures |r| == |coll|
    ensures forall i | 0 <= i < |coll| && !IsTarget(coll[i], filter) :: r[i] == coll[i]
    ensures forall i | 0 <= i < |coll| && IsTarget(coll[i], filter) :: r[i] == UpdatedRecord(config, updates, coll[i])
  {
    seq(|coll|, i requires 0 <= i < |coll| => UpdatedOne(config, updates, filter, coll[i]))
  }

  /**
   * `targets`: the records `update` acts on, in collection order; all of
   * them when there is no filter at all.
   */
  function Targets(coll: seq<Record>, filter: Option<Filter>): (t: seq<Record>)
    requires filter.Some? ==> NullFree(filter.value)
    ensures forall x {:trigger x in t} :: x in t <==> x in coll && IsTarget(x, filter)
    ensures IsSubsequence(t, coll)
  {
    if filter.None? then
      SubsequenceReflexive(coll);
      coll
    else FilterCollection(coll, filter.value)
  }

  /** Each target after the update, in order. */
  function UpdateAll(config: Config, updates: map<string, UpdateOp>, targets: seq<Record>): (rows: seq<Record>)
    ensures |rows| == |targets|
    ensures forall j | 0 <= j < |targets| :: rows[j] == UpdatedRecord(config, updates, targets[j])
  {
    if targets == [] then []
    else UpdateAll(config, updates, targets[..|targets| - 1]) + [UpdatedRecord(config, updates, targets[|targets| - 1])]
  }

  /** Looking at one more record adds it to the targets exactly when it is one. */
  lemma TargetsSnoc(coll: seq<Record>, x: Record, filter: Option<Filter>)
    requires filter.Some? ==> NullFree(filter.value)
    ensures Targets(coll + [x], filter) == Targets(coll, filter) + if IsTarget(x, filter) then [x] else []
  {
    if filter.Some? {
      FilterSnoc(coll, x, filter.value);
    }
  }

  /** Updating one more record appends its updated form. */
  lemma UpdatedCollectionSnoc(coll: seq<Record>, x: Record, config: Config, updates: map<string, UpdateOp>, filter: Option<Filter>)
    requires filter.Some? ==> NullFree(filter.value)
    ensures UpdatedCollection(coll + [x], config, updates, filter)
      == UpdatedCollection(coll, config, updates, filter) + [UpdatedOne(config, updates, filter, x)]
  {
  }

  /**
   * One step of `update`'s loop on the collection: once the first i records
   * are updated, replacing the i-th by its updated form (which leaves a
   * record that is not a target as it was) updates the first i + 1.
   */
  lemma UpdateStepCollection(before: seq<Record>, current: seq<Record>, i: nat,
                             config: Config, updates: map<string, UpdateOp>, filter: Option<Filter>)
    requires filter.Some? ==> NullFree(filter.value)
    requires i < |before| == |current|
    requires current[..i] == UpdatedCollection(before[..i], config, updates, filter)
    requires current[i..] == before[i..]
    ensures current[i] == before[i]
    ensures IsTarget(before[i], filter) ==>
      var next := current[i := UpdatedRecord(config, updates, before[i])];
      next[..i + 1] == UpdatedCollection(before[..i + 1], config, updates, filter) && next[i + 1..] == before[i + 1..]
    ensures !IsTarget(before[i], filter) ==>
      current[..i + 1] == UpdatedCollection(before[..i + 1], config, updates, filter) && current[i + 1..] == before[i + 1..]
  {
    assert current[i] == current[i..][0] == before[i..][0];
    var item := before[i];
    assert before[..i + 1] == before[..i] + [item];
    UpdatedCollectionSnoc(before[..i], item, config, updates, filter);
    var next := current[i := UpdatedOne(config, updates, filter, item)];
    assert next[..i + 1] == current[..i] + [UpdatedOne(config, updates, filter, item)];
    assert next[i + 1..] == current[i..][1..];
  }

  /** One step of `update`'s loop on what it returns: a target's updated form is appended. */
  lemma UpdateStepRows(before: seq<Record>, i: nat, config: Config, updates: map<string, UpdateOp>, filter: Option<Filter>)
    requires filter.Some? ==> NullFree(filter.value)
    requires i < |before|
    ensures UpdateAll(config, updates, Targets(before[..i + 1], filter))
      == UpdateAll(config, updates, Targets(before[..i], filter))
        + if IsTarget(before[i], filter) then [UpdatedRecord(config, updates, before[i])] else []
  {
    var item := before[i];
    assert before[..i + 1] == before[..i] + [item];
    TargetsSnoc(before[..i], item, filter);
    UpdateAllSnoc(config, updates, Targets(before[..i], filter), item);
  }

  /** A target of `update` can take the transforms. */
  lemma TargetApplicable(before: seq<Record>, i: nat, config: Config, updates: map<string, UpdateOp>, filter: Option<Filter>)
    requires filter.Some? ==> NullFree(filter.value)
    requires i < |before| && IsTarget(before[i], filter)
    requires ApplicableToTargets(before, config, updates, filter)
    ensures Applicable(config, updates, before[i])
  {
    assert before[i] in before;
  }

  /**
   * One step of `update`'s loop: the i-th record is the original one; when
   * it is a target it can take the transforms, and replacing it by its
   * updated form and appending that to what is returned keeps both in step
   * with the first i + 1 records; otherwise nothing needs to change.
   */
  lemma UpdateStep(before: seq<Record>, current: seq<Record>, rows: seq<Record>, i: nat,
                   config: Config, updates: map<string, UpdateOp>, filter: Option<Filter>)
    requires filter.Some? ==> NullFree(filter.value)
    requires ApplicableToTargets(before, config, updates, filter)
    requires i < |before| == |current|
    requires current[..i] == UpdatedCollection(before[..i], config, updates, filter)
    requires current[i..] == before[i..]
    requires rows == UpdateAll(config, updates, Targets(before[..i], filter))
    ensures current[i] == before[i]
    ensures IsTarget(before[i], filter) ==>
      var r := UpdatedRecord(config, updates, before[i]);
      var next := current[i := r];
      && Applicable(config, updates, before[i])
      && next[..i + 1] == UpdatedCollection(before[..i + 1], config, updates, filter)
      && next[i + 1..] == before[i + 1..]
      && rows + [r] == UpdateAll(config, updates, Targets(before[..i + 1], filter))
    ensures !IsTarget(before[i], filter) ==>
      && current[..i + 1] == UpdatedCollection(before[..i + 1], config, updates, filter)
      && current[i + 1..] == before[i + 1..]
      && rows == UpdateAll(config, updates, Targets(before[..i + 1], filter))
  {
    UpdateStepCollection(before, current, i, config, updates, filter);
    UpdateStepRows(before, i, config, updates, filter);
    if IsTarget(before[i], filter) {
      TargetApplicable(before, i, config, updates, filter);
    }
  }

  /** Updating one more target appends its updated form. */
  lemma UpdateAllSnoc(config: Config, updates: map<string, UpdateOp>, targets: seq<Record>, x: Record)
    ensures UpdateAll(config, updates, targets + [x]) == UpdateAll(config, updates, targets) + [UpdatedRecord(config, updates, x)]
  {
    assert (targets + [x])[..|targets|] == targets;
  }

  /** Every record `update` returns is one the collection now holds. */
  lemma ReturnedRowsAreStored(coll: seq<Record>, config: Config, updates: map<string, UpdateOp>, filter: Option<Filter>)
    requires filter.Some? ==> NullFree(filter.value)
    ensures forall x | x in UpdateAll(config, updates, Targets(coll, filter)) :: x in UpdatedCollection(coll, config, updates, filter)
  {
    var targets := Targets(coll, filter);
    var rows := UpdateAll(config, updates, targets);
    var after := UpdatedCollection(coll, config, updates, filter);
    forall x | x in rows ensures x in after {
      var j :| 0 <= j < |rows| && rows[j] == x;
      assert targets[j] in targets;
      var m :| 0 <= m < |coll| && coll[m] == targets[j];
      assert after[m] == x;
    }
  }

  /** The records `delete` keeps: those that do not match, in collection order. */
  function Remaining(coll: seq<Record>, filter: Filter): (r: seq<Record>)
    requires NullFree(filter)
    ensures forall x {:trigger x in r} :: x in r <==> x in coll && !Matches(x, filter)
    ensures IsSubsequence(r, coll)
  {
    if coll == [] then []
    else
      var init, last := coll[..|coll| - 1], coll[|coll| - 1];
      assert coll == init + [last];
      var kept := Remaining(init, filter);
      if Matches(last, filter) then
        kept
      else
        assert (kept + [last])[..|kept|] == kept;
        kept + [last]
  }

  /** Deleting over one more record keeps it exactly when it does not match. */
  lemma RemainingSnoc(coll: seq<Record>, x: Record, filter: Filter)
    requires NullFree(filter)
    ensures Remaining(coll + [x], filter) == Remaining(coll, filter) + if Matches(x, filter) then [] else [x]
  {
    assert (coll + [x])[..|coll|] == coll;
  }

  /**
   * A filtered `delete` partitions the collection: what it returns and what
   * it keeps together make up the old collection.
   */
  lemma {:induction false} DeletePartitions(coll: seq<Record>, filter: Filter)
    requires NullFree(filter)
    ensures multiset(FilterCollection(coll, filter)) + multiset(Remaining(coll, filter)) == multiset(coll)
    ensures |FilterCollection(coll, filter)| + |Remaining(coll, filter)| == |coll|
  {
    if coll != [] {
      var init, last := coll[..|coll| - 1], coll[|coll| - 1];
      assert coll == init + [last];
      DeletePartitions(init, filter);
      FilterSnoc(init, last, filter);
      RemainingSnoc(init, last, filter);
      var kept, rest := FilterCollection(init, filter), Remaining(init, filter);
      if Matches(last, filter) {
        assert multiset(kept + [last]) + multiset(rest) == multiset(init) + multiset{last};
      } else {
        assert multiset(kept) + multiset(rest + [last]) == multiset(init) + multiset{last};
      }
    }
  }

  /** The records whose tag is not the kind, in collection order. */
  function OtherKinds(coll: seq<Record>, kind: string): seq<Record>
  {
    if coll == [] then []
    else
      var init, last := coll[..|coll| - 1], coll[|coll| - 1];
      OtherKinds(init, kind) + if Field(last, "entityType") != Str(kind) then [last] else []
  }

  /** A scoped `delete` leaves the records of every other kind in place and in order. */
  lemma {:induction false} ScopedDeleteKeepsOtherKinds(coll: seq<Record>, kind: string, where: Option<Filter>)
    requires kind != ""
    requires where.Some? ==> NullFree(where.value)
    ensures var f := TargetFilter(Some(kind), where);
      f.Some? && OtherKinds(Remaining(coll, f.value), kind) == OtherKinds(coll, kind)
  {
    var f := TargetFilter(Some(kind), where);
    if coll != [] {
      var init, last := coll[..|coll| - 1], coll[|coll| - 1];
      assert coll == init + [last];
      ScopedDeleteKeepsOtherKinds(init, kind, where);
      TargetFilterMatches(last, Some(kind), where);
      var rest := Remaining(init, f.value);
      if !Matches(last, f.value) {
        assert (rest + [last])[..|rest|] == rest;
      }
    }
  }

  /** A subsequence holds only elements of the sequence. */
  lemma {:induction false} SubsequenceMembers(r: seq<Record>, s: seq<Record>)
    requires IsSubsequence(r, s)
    ensures forall x | x in r :: x in s
  {
    if r != [] {
      if r[|r| - 1] == s[|s| - 1] && IsSubsequence(r[..|r| - 1], s[..|s| - 1]) {
        SubsequenceMembers(r[..|r| - 1], s[..|s| - 1]);
        assert r == r[..|r| - 1] + [r[|r| - 1]];
      } else {
        SubsequenceMembers(r, s[..|s| - 1]);
      }
    }
  }

  /** Keeping some records, in order, keeps any key of theirs distinct. */
  lemma {:induction false} SubsequenceKeepsDistinct(r: seq<Record>, s: seq<Record>, key: Record -> string)
    requires IsSubsequence(r, s)
    requires forall i, j | 0 <= i < j < |s| :: key(s[i]) != key(s[j])
    ensures forall i, j | 0 <= i < j < |r| :: key(r[i]) != key(r[j])
  {
    if r != [] {
      var s' := s[..|s| - 1];
      if r[|r| - 1] == s[|s| - 1] && IsSubsequence(r[..|r| - 1], s') {
        var r' := r[..|r| - 1];
        SubsequenceKeepsDistinct(r', s', key);
        SubsequenceMembers(r', s');
        forall i, j | 0 <= i < j < |r| ensures key(r[i]) != key(r[j]) {
          if j == |r| - 1 {
            assert r[i] in r';
            var m :| 0 <= m < |s'| && s'[m] == r[i];
          } else {
            assert r[i] == r'[i] && r[j] == r'[j];
          }
        }
      } else {
        SubsequenceKeepsDistinct(r, s', key);
      }
    }
  }

  /** Keeping some records, in order, keeps their composite keys unique. */
  lemma SubsequenceKeepsKeysUnique(r: seq<Record>, s: seq<Record>)
    requires IsSubsequence(r, s) && UniqueKeys(s)
    ensures UniqueKeys(r)
  {
    SubsequenceKeepsDistinct(r, s, CompositeKey);
  }

  /** The shared mutable collection one store instance owns. */
  class CollectionStore {
    var collection: seq<Record>

    constructor ()
      ensures collection == []
    {
      collection := [];
    }

    /**
     * `db.K.insert(input)` with K's configuration: appends the candidate
     * unless a record with its key exists, in which case nothing changes and
     * the first stored record with that key is returned with status CONFLICT.
     */
    method Insert(config: Config, kind: string, input: Record) returns (res: InsertResult)
      modifies this
      ensures var cand := Candidate(config, kind, input);
        if forall i | 0 <= i < |old(collection)| :: CompositeKey(old(collection)[i]) != CompositeKey(cand) then
          res == InsertResult(Ok, cand) && collection == old(collection) + [cand]
        else
          && res.status == Conflict
          && collection == old(collection)
          && exists i | 0 <= i < |old(collection)| ::
            && old(collection)[i] == res.data
            && CompositeKey(res.data) == CompositeKey(cand)
            && forall j | 0 <= j < i :: CompositeKey(old(collection)[j]) != CompositeKey(cand)
      ensures UniqueKeys(old(collection)) ==> UniqueKeys(collection)
    {
      var mapped := Candidate(config, kind, input);
      var conflict := FindCompositeKey(collection, mapped);
      if conflict.Some? {
        return InsertResult(Conflict, conflict.value);
      }
      collection := collection + [mapped];
      res := InsertResult(Ok, mapped);
    }

    /** `list(where)` on the accessor with the given scope. */
    method List(kind: Option<string>, where: Option<Filter>) returns (rows: seq<Record>)
      requires where.Some? ==> NullFree(where.value)
      ensures rows == Select(collection, kind, where)
      ensures forall x :: x in rows <==> x in collection && Listed(x, kind, where)
      ensures forall x :: multiset(rows)[x] == if Listed(x, kind, where) then multiset(collection)[x] else 0
      ensures IsSubsequence(rows, collection)
    {
      var from := if Scoped(kind) then FilterCollection(collection, KindFilter(kind.value)) else collection;
      rows := if where.None? then from else FilterCollection(from, where.value);
      SelectExactly(collection, kind, where);
      SelectCounts(collection, kind, where);
    }

    /**
     * `update({updates, where})` on the accessor with the given scope: rewrites
     * the targets in place and returns them.
     */
    method Update(config: Config, kind: Option<string>, updates: map<string, UpdateOp>, where: Option<Filter>)
      returns (rows: seq<Record>)
      requires where.Some? ==> NullFree(where.value)
      requires ApplicableToTargets(collection, config, updates, TargetFilter(kind, where))
      modifies this
      ensures collection == UpdatedCollection(old(collection), config, updates, TargetFilter(kind, where))
      ensures rows == UpdateAll(config, updates, Targets(old(collection), TargetFilter(kind, where)))
    {
      var filter := TargetFilter(kind, where);
      collection, rows := UpdateTargets(collection, config, updates, filter);
    }

    /**
     * `delete(where)` on the accessor with the given scope. With no filter
     * at all the collection is emptied and nothing is returned; otherwise the
     * matching records are removed and returned, in collection order.
     */
    method Delete(kind: Option<string>, where: Option<Filter>) returns (rows: seq<Record>)
      requires where.Some? ==> NullFree(where.value)
      modifies this
      ensures !Scoped(kind) && where.None? ==> collection == [] && rows == []
      ensures var f := TargetFilter(kind, where);
        f.Some? ==> rows == FilterCollection(old(collection), f.value) && collection == Remaining(old(collection), f.value)
      ensures UniqueKeys(old(collection)) ==> UniqueKeys(collection)
    {
      var updatedCollection: seq<Record> := [];
      var deleted: seq<Record> := [];
      var filter := TargetFilter(kind, where);
      if filter.None? {
        collection := updatedCollection;
        return deleted;
      }
      var f := filter.value;
      var coll := collection;
      var i := 0;
      while i < |coll|
        invariant 0 <= i <= |coll|
        invariant deleted == FilterCollection(coll[..i], f)
        invariant updatedCollection == Remaining(coll[..i], f)
      {
        var e := coll[i];
        assert coll[..i + 1] == coll[..i] + [e];
        FilterSnoc(coll[..i], e, f);
        RemainingSnoc(coll[..i], e, f);
        if Matches(e, f) {
          deleted := deleted + [e];
        } else {
          updatedCollection := updatedCollection + [e];
        }
        i := i + 1;
      }
      assert coll[..i] == coll;
      if UniqueKeys(coll) {
        SubsequenceKeepsKeysUnique(updatedCollection, coll);
      }
      collection := updatedCollection;
      rows := deleted;
    }
  }

  /**
   * The loop of `update` over the collection: each target is rewritten in
   * place, by `ApplySet`, and collected, in collection order.
   */
  method UpdateTargets(before: seq<Record>, config: Config, updates: map<string, UpdateOp>, filter: Option<Filter>)
    returns (current: seq<Record>, rows: seq<Record>)
    requires filter.Some? ==> NullFree(filter.value)
    requires ApplicableToTargets(before, config, updates, filter)
    ensures current == UpdatedCollection(before, config, updates, filter)
    ensures rows == UpdateAll(config, updates, Targets(before, filter))
  {
    current := before;
    rows := [];
    var i := 0;
    while i < |current|
      invariant 0 <= i <= |current| == |before|
      invariant current[..i] == UpdatedCollection(before[..i], config, updates, filter)
      invariant current[i..] == before[i..]
      invariant rows == UpdateAll(config, updates, Targets(before[..i], filter))
    {
      current, rows := UpdateRecordAt(before, current, rows, i, config, updates, filter);
      i := i + 1;
    }
    assert before[..i] == before;
    assert current[..i] == current;
  }

  /**
   * One pass of `update`'s loop: the i-th record, when it is a target, is
   * rewritten in place and appended to what is returned.
   */
  method UpdateRecordAt(ghost before: seq<Record>, current: seq<Record>, rows: seq<Record>, i: nat,
                        config: Config, updates: map<string, UpdateOp>, filter: Option<Filter>)
    returns (current': seq<Record>, rows': seq<Record>)
    requires filter.Some? ==> NullFree(filter.value)
    requires ApplicableToTargets(before, config, updates, filter)
    requires i < |before| == |current|
    requires current[..i] == UpdatedCollection(before[..i], config, updates, filter)
    requires current[i..] == before[i..]
    requires rows == UpdateAll(config, updates, Targets(before[..i], filter))
    ensures |current'| == |before|
    ensures current'[..i + 1] == UpdatedCollection(before[..i + 1], config, updates, filter)
    ensures current'[i + 1..] == before[i + 1..]
    ensures rows' == UpdateAll(config, updates, Targets(before[..i + 1], filter))
  {
    UpdateStep(before, current, rows, i, config, updates, filter);
    current', rows' := current, rows;
    var item := current[i];
    if IsTarget(item, filter) {
      var updated := ApplySet(config, updates, item);
      current' := current[i := updated];
      rows' := rows + [updated];
    }
  }

  /**
   * The inner loop of `update` on one target: each entry of `set` in turn
   * rewrites its key.
   */
  method ApplySet(config: Config, updates: map<string, UpdateOp>, item: Record) returns (out: Record)
    requires Applicable(config, updates, item)
    ensures out == UpdatedRecord(config, updates, item)
  {
    out := item;
    var pending := updates.Keys;
    while pending != {}
      invariant pending <= updates.Keys
      invariant out == Rewritten(config, updates, item, updates.Keys - pending)
      decreases pending
    {
      var k :| k in pending;
      ghost var done := updates.Keys - pending;
      RewrittenStep(config, updates, item, done, k);
      var target := Field(out, k);
      out := out[k := NewValue(config, k, updates[k], target)];
      assert updates.Keys - (pending - {k}) == done + {k};
      pending := pending - {k};
    }
    assert updates.Keys - pending == updates.Keys;
  }
}
