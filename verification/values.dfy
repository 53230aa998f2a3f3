/**
 * The dynamic values that records hold, and the store's deep equality
 * (`isEqual`, src/index.ts:471-489).
 *
 * Numbers are integers: the store's values never hold NaN, so the
 * reference-equality shortcut `a === b` of the object branch can be left
 * out without changing any result (see IsEqualReflexive).
 */
module Values {
  import opened Wrappers

  /** A JavaScript value as the store sees it. Functions never appear in records. */
  datatype Value =
    | Undefined
    | Null
    | Bool(b: bool)
    | Num(n: int)
    | Str(s: string)
    | Arr(items: seq<Value>)
    | Obj(fields: map<string, Value>)

  /** A record: field name to value. */
  type Record = map<string, Value>

  /** The `typeof` operator. */
  function TypeOf(v: Value): string
  {
    match v
    case Undefined => "undefined"
    case Null => "object"
    case Bool(_) => "boolean"
    case Num(_) => "number"
    case Str(_) => "string"
    case Arr(_) => "object"
    case Obj(_) => "object"
  }

  /** Property read `r[k]`: a key the record does not have reads as undefined. */
  function Field(r: Record, k: string): Value
  {
    if k in r then r[k] else Undefined
  }

  /** JavaScript truthiness. */
  predicate Truthy(v: Value)
  {
    match v
    case Undefined => false
    case Null => false
    case Bool(b) => b
    case Num(n) => n != 0
    case Str(s) => s != ""
    case Arr(_) => true
    case Obj(_) => true
  }

  function Digit(d: nat): (c: char)
    requires d < 10
    ensures '0' <= c <= '9'
  {
    ('0' as int + d) as char
  }

  /** The decimal form of a natural number; an array's own keys are the decimal forms of its indices. */
  function Decimal(n: nat): (s: string)
    ensures |s| >= 1
    ensures forall i :: 0 <= i < |s| ==> '0' <= s[i] <= '9'
  {
    if n < 10 then [Digit(n)] else Decimal(n / 10) + [Digit(n % 10)]
  }

  /** Distinct indices have distinct keys. */
  lemma {:induction false} DecimalInjective(m: nat, n: nat)
    requires Decimal(m) == Decimal(n)
    ensures m == n
  {
    if m >= 10 && n >= 10 {
      var s := Decimal(m);
      assert Decimal(m / 10) == s[..|s| - 1];
      assert Decimal(n / 10) == s[..|s| - 1];
      DecimalInjective(m / 10, n / 10);
      assert Digit(m % 10) == s[|s| - 1] == Digit(n % 10);
    }
  }

  /** The index below n whose key is k, if there is one. */
  function IndexOfKey(k: string, n: nat): (r: Option<nat>)
    ensures r.Some? ==> r.value < n && Decimal(r.value) == k
    ensures r.None? ==> forall i: nat :: i < n ==> Decimal(i) != k
  {
    if n == 0 then None
    else if Decimal(n - 1) == k then Some(n - 1)
    else IndexOfKey(k, n - 1)
  }

  /** `Object.keys(v)` for an array or a plain object. */
  function KeysOf(v: Value): set<string>
  {
    match v
    case Arr(xs) => set i: nat | i < |xs| :: Decimal(i)
    case Obj(m) => m.Keys
    case _ => {}
  }

  /**
   * Property read `v[k]` on an array or a plain object. Inherited properties
   * (an array's `length`, methods of the prototypes) are not modelled.
   */
  function Get(v: Value, k: string): Value
  {
    match v
    case Arr(xs) => (match IndexOfKey(k, |xs|) case Some(i) => xs[i] case None => Undefined)
    case Obj(m) => Field(m, k)
    case _ => Undefined
  }

  /**
   * `isEqual(a, b)`: values of different `typeof` differ; two arrays are
   * compared by length and element by element; any other two values of
   * typeof "object" are equal when both are null, unequal when one is, and
   * otherwise compared key by key over both sides' own keys (a key one side
   * lacks reads as undefined there); everything else compares with `===`.
   * An array and a plain object therefore meet in the key-by-key branch.
   */
  function IsEqual(a: Value, b: Value): bool
    decreases a
  {
    if TypeOf(a) != TypeOf(b) then false
    else if a.Arr? && b.Arr? then
      |a.items| == |b.items| && forall i | 0 <= i < |a.items| :: IsEqual(a.items[i], b.items[i])
    else if TypeOf(a) == "object" then
      if a.Null? || b.Null? then a.Null? && b.Null?
      else
        && (match a
            case Arr(xs) => forall i: nat | i < |xs| :: IsEqual(xs[i], Get(b, Decimal(i)))
            case Obj(m) => forall k | k in m :: IsEqual(m[k], Get(b, k))
            case _ => false)
        && forall k | k in KeysOf(b) && k !in KeysOf(a) :: Get(b, k).Undefined?
    else a == b
  }

  /** Facts that follow from the first lines of `isEqual`. */
  lemma IsEqualBasics(a: Value, b: Value)
    ensures TypeOf(a) != TypeOf(b) ==> !IsEqual(a, b)
    ensures a.Null? ==> (IsEqual(a, b) <==> b.Null?)
    ensures b.Null? ==> (IsEqual(a, b) <==> a.Null?)
    ensures a.Undefined? ==> (IsEqual(a, b) <==> b.Undefined?)
    ensures b.Undefined? ==> (IsEqual(a, b) <==> a.Undefined?)
    ensures TypeOf(a) != "object" ==> (IsEqual(a, b) <==> a == b)
  {
  }

  /** Reading an array at the key of one of its indices gives that element. */
  lemma GetIndex(xs: seq<Value>, i: nat)
    requires i < |xs|
    ensures Get(Arr(xs), Decimal(i)) == xs[i]
  {
    var r := IndexOfKey(Decimal(i), |xs|);
    assert r.Some?;
    DecimalInjective(r.value, i);
  }

  /** A key that is not an own key reads as undefined. */
  lemma GetMissing(v: Value, k: string)
    requires k !in KeysOf(v)
    ensures Get(v, k) == Undefined
  {
    if v.Arr? {
      var r := IndexOfKey(k, |v.items|);
    }
  }

  /** A key that does not start with a digit is not an array index. */
  lemma NonDigitKeyMissing(v: Value, k: string)
    requires v.Arr? && |k| > 0 && !('0' <= k[0] <= '9')
    ensures k !in KeysOf(v) && Get(v, k) == Undefined
  {
    forall i: nat | i < |v.items| ensures Decimal(i) != k {
      assert Decimal(i)[0] != k[0];
    }
    GetMissing(v, k);
  }

  /**
   * The key-by-key branch of `isEqual` compares the two sides over the union
   * of their own keys, each missing key reading as undefined.
   */
  lemma {:induction false} IsEqualKeyByKey(a: Value, b: Value)
    requires TypeOf(a) == "object" && TypeOf(b) == "object"
    requires !a.Null? && !b.Null? && !(a.Arr? && b.Arr?)
    ensures IsEqual(a, b) <==> forall k | k in KeysOf(a) + KeysOf(b) :: IsEqual(Get(a, k), Get(b, k))
  {
    if IsEqual(a, b) {
      forall k | k in KeysOf(a) + KeysOf(b)
        ensures IsEqual(Get(a, k), Get(b, k))
      {
        if k in KeysOf(a) {
          if a.Arr? {
            var i: nat :| i < |a.items| && Decimal(i) == k;
            GetIndex(a.items, i);
          }
        } else {
          GetMissing(a, k);
        }
      }
    }
    if forall k | k in KeysOf(a) + KeysOf(b) :: IsEqual(Get(a, k), Get(b, k)) {
      if a.Arr? {
        forall i: nat | i < |a.items|
          ensures IsEqual(a.items[i], Get(b, Decimal(i)))
        {
          GetIndex(a.items, i);
          assert Decimal(i) in KeysOf(a);
        }
      }
      forall k | k in KeysOf(b) && k !in KeysOf(a)
        ensures Get(b, k).Undefined?
      {
        GetMissing(a, k);
        IsEqualBasics(Get(a, k), Get(b, k));
      }
    }
  }

  /** Plain objects are equal iff every key of either side has equal values on both sides. */
  lemma IsEqualObjects(m1: map<string, Value>, m2: map<string, Value>)
    ensures IsEqual(Obj(m1), Obj(m2)) <==> forall k | k in m1.Keys + m2.Keys :: IsEqual(Field(m1, k), Field(m2, k))
  {
    IsEqualKeyByKey(Obj(m1), Obj(m2));
    assert forall k :: Get(Obj(m1), k) == Field(m1, k) && Get(Obj(m2), k) == Field(m2, k);
  }

  /** Arrays are equal iff they have the same length and are equal element by element, in order. */
  lemma IsEqualArrays(xs: seq<Value>, ys: seq<Value>)
    ensures IsEqual(Arr(xs), Arr(ys)) <==> |xs| == |ys| && forall i | 0 <= i < |xs| :: IsEqual(xs[i], ys[i])
  {
  }

  /** `isEqual` is symmetric. */
  lemma {:induction false} IsEqualSymmetric(a: Value, b: Value)
    ensures IsEqual(a, b) == IsEqual(b, a)
    decreases a, 1
  {
    if TypeOf(a) != TypeOf(b) {
    } else if a.Arr? && b.Arr? {
      forall i | 0 <= i < |a.items| && i < |b.items|
        ensures IsEqual(a.items[i], b.items[i]) == IsEqual(b.items[i], a.items[i])
      {
        IsEqualSymmetric(a.items[i], b.items[i]);
      }
    } else if TypeOf(a) == "object" && !a.Null? && !b.Null? {
      IsEqualKeyByKey(a, b);
      IsEqualKeyByKey(b, a);
      forall k | k in KeysOf(a) + KeysOf(b)
        ensures IsEqual(Get(a, k), Get(b, k)) == IsEqual(Get(b, k), Get(a, k))
      {
        IsEqualSymmetricAt(a, b, k);
      }
    }
  }

  /** The key-by-key step of `IsEqualSymmetric`. */
  lemma {:induction false} IsEqualSymmetricAt(a: Value, b: Value, k: string)
    requires TypeOf(a) == TypeOf(b) == "object" && !a.Null? && !b.Null?
    ensures IsEqual(Get(a, k), Get(b, k)) == IsEqual(Get(b, k), Get(a, k))
    decreases a, 0
  {
    if k in KeysOf(a) {
      if a.Arr? {
        var i: nat :| i < |a.items| && Decimal(i) == k;
        GetIndex(a.items, i);
      }
      IsEqualSymmetric(Get(a, k), Get(b, k));
    } else {
      GetMissing(a, k);
      IsEqualBasics(Get(a, k), Get(b, k));
      IsEqualBasics(Get(b, k), Get(a, k));
    }
  }

  /** `isEqual` is reflexive (every modelled value is NaN-free). */
  lemma {:induction false} IsEqualReflexive(a: Value)
    ensures IsEqual(a, a)
  {
    match a
    case Arr(xs) =>
      forall i | 0 <= i < |xs| ensures IsEqual(xs[i], xs[i]) {
        IsEqualReflexive(xs[i]);
      }
    case Obj(m) =>
      forall k | k in m ensures IsEqual(m[k], Get(a, k)) {
        IsEqualReflexive(m[k]);
      }
    case _ =>
  }

  /** Deep-equal values are equally truthy. */
  lemma IsEqualTruthy(a: Value, b: Value)
    requires IsEqual(a, b)
    ensures Truthy(a) == Truthy(b)
  {
  }

  /** An empty array equals an empty object, and `["x"]` equals `{"0": "x"}`. */
  lemma ArrayEqualsIndexedObject()
    ensures IsEqual(Arr([]), Obj(map[]))
    ensures IsEqual(Arr([Str("x")]), Obj(map["0" := Str("x")]))
    ensures !IsEqual(Arr([]), Null)
  {
    var o := Obj(map["0" := Str("x")]);
    assert Decimal(0) == "0";
    assert KeysOf(Arr([Str("x")])) == {"0"};
    assert Get(o, Decimal(0)) == Str("x");
  }

  /**
   * `String(v)` as a template literal renders a value: arrays are joined
   * with commas (null and undefined elements render empty), plain objects
   * render as "[object Object]".
   */
  function ToText(v: Value): string
  {
    match v
    case Undefined => "undefined"
    case Null => "null"
    case Bool(b) => if b then "true" else "false"
    case Num(n) => if n < 0 then "-" + Decimal(-n) else Decimal(n)
    case Str(s) => s
    case Arr(xs) => JoinText(xs)
    case Obj(_) => "[object Object]"
  }

  /** `xs.join(",")`. */
  function JoinText(xs: seq<Value>): string
  {
    if xs == [] then ""
    else
      var head := if xs[0].Null? || xs[0].Undefined? then "" else ToText(xs[0]);
      if |xs| == 1 then head else head + "," + JoinText(xs[1..])
  }
}
