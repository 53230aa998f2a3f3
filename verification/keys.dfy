/**
 * Composite identity: `getCompositeKey` and `findCompositeKey`
 * (src/index.ts:147-158).
 */
module Keys {
  import opened Wrappers
  import opened Values

  /** `${v ?? ''}`: null and undefined render empty. */
  function OrEmpty(v: Value): string
  {
    if v.Null? || v.Undefined? then "" else ToText(v)
  }

  /** `${a}:${b}:${c}:${d}`. */
  function Join4(a: string, b: string, c: string, d: string): string
  {
    a + ":" + b + ":" + c + ":" + d
  }

  /** The identity string `schema:table:name:entityType` of a record. */
  function CompositeKey(row: Record): string
  {
    Join4(OrEmpty(Field(row, "schema")), OrEmpty(Field(row, "table")),
      ToText(Field(row, "name")), ToText(Field(row, "entityType")))
  }

  /** At most one record per identity string. */
  predicate UniqueKeys(coll: seq<Record>)
  {
    forall i, j | 0 <= i < j < |coll| :: CompositeKey(coll[i]) != CompositeKey(coll[j])
  }

  /** The index of the first occurrence of k in ks, or |ks| when there is none. */
  function FirstIndexOf<K(==)>(ks: seq<K>, k: K): (i: nat)
    ensures i <= |ks|
    ensures forall j | 0 <= j < i :: ks[j] != k
    ensures i < |ks| ==> ks[i] == k
  {
    if ks == [] then 0
    else if ks[0] == k then 0
    else
      var i := FirstIndexOf(ks[1..], k);
      assert forall j | 1 <= j <= i :: ks[j] == ks[1..][j - 1];
      1 + i
  }

  /** The identity string of each record, in collection order. */
  function IdentityKeys(data: seq<Record>): (ks: seq<string>)
    ensures |ks| == |data|
    ensures forall i | 0 <= i < |data| :: ks[i] == CompositeKey(data[i])
  {
    seq(|data|, i requires 0 <= i < |data| => CompositeKey(data[i]))
  }

  /**
   * `findCompositeKey(data, target)`: the first record whose key is the
   * target's, or none.
   */
  function FindCompositeKey(data: seq<Record>, target: Record): (r: Option<Record>)
    ensures r.None? <==> forall i | 0 <= i < |data| :: CompositeKey(data[i]) != CompositeKey(target)
    ensures r.Some? ==>
      exists i | 0 <= i < |data| ::
        && data[i] == r.value
        && CompositeKey(data[i]) == CompositeKey(target)
        && forall j | 0 <= j < i :: CompositeKey(data[j]) != CompositeKey(target)
  {
    var i := FirstIndexOf(IdentityKeys(data), CompositeKey(target));
    if i < |data| then Some(data[i]) else None
  }

  /** A null schema or table gives the same key as an empty or a missing one. */
  lemma NullCollapsesToEmpty(row: Record)
    ensures CompositeKey(row["schema" := Null]) == CompositeKey(row["schema" := Str("")])
    ensures CompositeKey(row["schema" := Null]) == CompositeKey(row - {"schema"})
    ensures CompositeKey(row["table" := Null]) == CompositeKey(row["table" := Str("")])
    ensures CompositeKey(row["table" := Null]) == CompositeKey(row - {"table"})
  {
    SameComponents(row["schema" := Null], row["schema" := Str("")]);
    SameComponents(row["schema" := Null], row - {"schema"});
    SameComponents(row["table" := Null], row["table" := Str("")]);
    SameComponents(row["table" := Null], row - {"table"});
  }

  /** Rows whose four components render alike share a key. */
  lemma SameComponents(r1: Record, r2: Record)
    requires OrEmpty(Field(r1, "schema")) == OrEmpty(Field(r2, "schema"))
    requires OrEmpty(Field(r1, "table")) == OrEmpty(Field(r2, "table"))
    requires Field(r1, "name") == Field(r2, "name")
    requires Field(r1, "entityType") == Field(r2, "entityType")
    ensures CompositeKey(r1) == CompositeKey(r2)
  {
  }

  /** Names that contain ':' can give two different rows the same key. */
  lemma ColonsCollide()
    ensures
      var r1 := map["schema" := Str("a:b"), "table" := Null, "name" := Str("n"), "entityType" := Str("t")];
      var r2 := map["schema" := Str("a"), "table" := Str("b"), "name" := Str(":n"), "entityType" := Str("t")];
      r1 != r2 && CompositeKey(r1) == CompositeKey(r2)
  {
    var r1 := map["schema" := Str("a:b"), "table" := Null, "name" := Str("n"), "entityType" := Str("t")];
    var r2 := map["schema" := Str("a"), "table" := Str("b"), "name" := Str(":n"), "entityType" := Str("t")];
    assert r1["schema"] != r2["schema"];
    assert CompositeKey(r1) == "a:b::n:t";
    assert CompositeKey(r2) == "a:b::n:t";
  }

  /** In x + ":" + y with no ':' in x, the first ':' is at index |x|. */
  lemma FirstColon(x: string, y: string)
    requires ':' !in x
    ensures (x + ":" + y)[|x|] == ':'
    ensures forall i | 0 <= i < |x| :: (x + ":" + y)[i] != ':'
  {
    assert forall i | 0 <= i < |x| :: (x + ":" + y)[i] == x[i];
  }

  /** Splitting at the first ':' is unique. */
  lemma SplitAtColon(x: string, y: string, x': string, y': string)
    requires ':' !in x && ':' !in x'
    requires x + ":" + y == x' + ":" + y'
    ensures x == x' && y == y'
  {
    var s := x + ":" + y;
    FirstColon(x, y);
    FirstColon(x', y');
    assert |x| == |x'|;
    assert x == s[..|x|] == x';
    assert y == s[|x| + 1..] == y';
  }

  /** With no ':' in its first three parts, a joined key splits back into them. */
  lemma Join4Injective(a: string, b: string, c: string, d: string, a': string, b': string, c': string, d': string)
    requires ':' !in a && ':' !in b && ':' !in c && ':' !in a' && ':' !in b' && ':' !in c'
    requires Join4(a, b, c, d) == Join4(a', b', c', d')
    ensures a == a' && b == b' && c == c' && d == d'
  {
    assert Join4(a, b, c, d) == a + ":" + (b + ":" + (c + ":" + d));
    assert Join4(a', b', c', d') == a' + ":" + (b' + ":" + (c' + ":" + d'));
    SplitAtColon(a, b + ":" + (c + ":" + d), a', b' + ":" + (c' + ":" + d'));
    SplitAtColon(b, c + ":" + d, b', c' + ":" + d');
    SplitAtColon(c, d, c', d');
  }

  /**
   * When schema, table and name contain no ':', two rows share a key iff
   * they agree on every component (null and "" being the same component).
   * The last component, entityType, may contain ':'.
   */
  lemma CompositeKeyInjective(r1: Record, r2: Record)
    requires ':' !in OrEmpty(Field(r1, "schema")) && ':' !in OrEmpty(Field(r2, "schema"))
    requires ':' !in OrEmpty(Field(r1, "table")) && ':' !in OrEmpty(Field(r2, "table"))
    requires ':' !in ToText(Field(r1, "name")) && ':' !in ToText(Field(r2, "name"))
    ensures CompositeKey(r1) == CompositeKey(r2) <==>
      && OrEmpty(Field(r1, "schema")) == OrEmpty(Field(r2, "schema"))
      && OrEmpty(Field(r1, "table")) == OrEmpty(Field(r2, "table"))
      && ToText(Field(r1, "name")) == ToText(Field(r2, "name"))
      && ToText(Field(r1, "entityType")) == ToText(Field(r2, "entityType"))
  {
    if CompositeKey(r1) == CompositeKey(r2) {
      Join4Injective(OrEmpty(Field(r1, "schema")), OrEmpty(Field(r1, "table")),
        ToText(Field(r1, "name")), ToText(Field(r1, "entityType")),
        OrEmpty(Field(r2, "schema")), OrEmpty(Field(r2, "table")),
        ToText(Field(r2, "name")), ToText(Field(r2, "entityType")));
    }
  }
}
