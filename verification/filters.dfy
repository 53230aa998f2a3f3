/**
 * The filter matcher: `matchesFilters` and `filterCollection`
 * (src/index.ts:123-141).
 */
module Filters {
  import opened Values

  /**
   * A filter object: each field maps to a literal, to `{CONTAINS: x}`, or to
   * undefined (no constraint).
   */
  type Filter = map<string, Value>

  /** How `matchesFilters` reads one filter entry. */
  datatype Constraint =
    | Unconstrained
    | ContainsElement(elem: Value)
    | EqualsLiteral(literal: Value)

  /**
   * A null literal makes `v.CONTAINS` throw, so a filter the store can
   * evaluate holds none.
   */
  predicate NullFree(f: Filter)
  {
    forall k | k in f :: !f[k].Null?
  }

  /**
   * An entry is skipped when undefined; it is a containment test when it is
   * of typeof "object" and its `CONTAINS` property is not undefined; it is a
   * literal otherwise. Only a plain object can carry `CONTAINS`.
   */
  function ConstraintOf(v: Value): (c: Constraint)
    requires !v.Null?
    ensures c.Unconstrained? <==> v.Undefined?
    ensures c.ContainsElement? <==> v.Obj? && !Field(v.fields, "CONTAINS").Undefined?
    ensures c.ContainsElement? ==> c.elem == v.fields["CONTAINS"]
    ensures c.EqualsLiteral? ==> c.literal == v
  {
    if v.Arr? then
      NonDigitKeyMissing(v, "CONTAINS");
      EqualsLiteral(v)
    else if v.Undefined? then Unconstrained
    else if TypeOf(v) == "object" && !Get(v, "CONTAINS").Undefined? then ContainsElement(Get(v, "CONTAINS"))
    else EqualsLiteral(v)
  }

  /** The index of the first element deep-equal to x, or |xs| when there is none. */
  function FirstEqual(xs: seq<Value>, x: Value): (i: nat)
    ensures i <= |xs|
    ensures forall j | 0 <= j < i :: !IsEqual(xs[j], x)
    ensures i < |xs| ==> IsEqual(xs[i], x)
  {
    if xs == [] then 0
    else if IsEqual(xs[0], x) then 0
    else
      var i := FirstEqual(xs[1..], x);
      assert forall j | 1 <= j <= i :: xs[j] == xs[1..][j - 1];
      1 + i
  }

  /** `xs.find(e => isEqual(e, x))`: the first element deep-equal to x, or undefined. */
  function Find(xs: seq<Value>, x: Value): (r: Value)
    ensures (forall i | 0 <= i < |xs| :: !IsEqual(xs[i], x)) ==> r == Undefined
    ensures (exists i | 0 <= i < |xs| :: IsEqual(xs[i], x)) ==>
      exists i | 0 <= i < |xs| :: r == xs[i] && IsEqual(xs[i], x) && forall j | 0 <= j < i :: !IsEqual(xs[j], x)
  {
    var i := FirstEqual(xs, x);
    if i < |xs| then xs[i] else Undefined
  }

  /** One filter entry holds of a record. */
  predicate Holds(item: Record, k: string, v: Value)
    requires !v.Null?
  {
    match ConstraintOf(v)
    case Unconstrained => true
    case ContainsElement(x) =>
      var target := Field(item, k);
      target.Arr? && Truthy(Find(target.items, x))
    case EqualsLiteral(literal) => IsEqual(Field(item, k), literal)
  }

  /** `matchesFilters(item, filter)`: every entry of the filter holds. */
  predicate Matches(item: Record, filter: Filter)
    requires NullFree(filter)
  {
    forall k | k in filter :: Holds(item, k, filter[k])
  }

  /** r keeps some of the elements of s, in their order in s. */
  ghost predicate IsSubsequence(r: seq<Record>, s: seq<Record>)
  {
    if r == [] then true
    else if s == [] then false
    else
      || (r[|r| - 1] == s[|s| - 1] && IsSubsequence(r[..|r| - 1], s[..|s| - 1]))
      || IsSubsequence(r, s[..|s| - 1])
  }

  /**
   * `filterCollection(coll, filter)`: the records that match, in collection
   * order.
   */
  function FilterCollection(coll: seq<Record>, filter: Filter): (r: seq<Record>)
    requires NullFree(filter)
    ensures |r| <= |coll|
    ensures forall x {:trigger x in r} :: x in r <==> x in coll && Matches(x, filter)
    ensures IsSubsequence(r, coll)
  {
    if coll == [] then []
    else
      var init, last := coll[..|coll| - 1], coll[|coll| - 1];
      assert coll == init + [last];
      var kept := FilterCollection(init, filter);
      if Matches(last, filter) then
        assert (kept + [last])[..|kept|] == kept;
        kept + [last]
      else
        kept
  }

  /** Filtering one more record keeps it exactly when it matches. */
  lemma FilterSnoc(coll: seq<Record>, x: Record, filter: Filter)
    requires NullFree(filter)
    ensures FilterCollection(coll + [x], filter) == FilterCollection(coll, filter) + if Matches(x, filter) then [x] else []
  {
    assert (coll + [x])[..|coll|] == coll;
  }

  /** The empty filter matches every record. */
  lemma {:induction false} EmptyFilterMatchesAll(coll: seq<Record>)
    ensures FilterCollection(coll, map[]) == coll
  {
    if coll != [] {
      var init, last := coll[..|coll| - 1], coll[|coll| - 1];
      EmptyFilterMatchesAll(init);
      assert Matches(last, map[]);
      assert coll == init + [last];
    }
  }

  /** An undefined entry imposes no constraint. */
  lemma UndefinedEntryIgnored(item: Record, f: Filter, k: string)
    requires NullFree(f)
    ensures Matches(item, f[k := Undefined]) <==> Matches(item, f - {k})
  {
    var g := f[k := Undefined];
    assert Holds(item, k, g[k]);
    assert forall j | j in f - {k} :: g[j] == (f - {k})[j];
  }

  /**
   * `{CONTAINS: x}` holds iff the field is an array with an element
   * deep-equal to x and x is truthy: a matching "", 0 or false is found by
   * `find` but read as no match.
   */
  lemma ContainsHolds(item: Record, k: string, x: Value)
    requires !x.Undefined?
    ensures Holds(item, k, Obj(map["CONTAINS" := x])) <==>
      && Field(item, k).Arr?
      && Truthy(x)
      && exists i | 0 <= i < |Field(item, k).items| :: IsEqual(Field(item, k).items[i], x)
  {
    var target := Field(item, k);
    if target.Arr? {
      var r := Find(target.items, x);
      if exists i | 0 <= i < |target.items| :: IsEqual(target.items[i], x) {
        var i :| 0 <= i < |target.items| && r == target.items[i] && IsEqual(target.items[i], x);
        IsEqualTruthy(r, x);
      }
    }
  }

  /** An array holding "" does not match `{CONTAINS: ""}`. */
  lemma ContainsEmptyStringNeverMatches()
    ensures !Holds(map["tags" := Arr([Str("")])], "tags", Obj(map["CONTAINS" := Str("")]))
  {
    ContainsHolds(map["tags" := Arr([Str("")])], "tags", Str(""));
  }

  /** A literal entry holds iff the field is deep-equal to it. */
  lemma LiteralHolds(item: Record, k: string, v: Value)
    requires !v.Null? && !v.Undefined?
    requires !(v.Obj? && "CONTAINS" in v.fields && !v.fields["CONTAINS"].Undefined?)
    ensures Holds(item, k, v) <==> IsEqual(Field(item, k), v)
  {
  }
}
