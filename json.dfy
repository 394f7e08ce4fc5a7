/**
 * The JSON-like values the dashboard handles: order snapshots are plain data decoded from the
 * vendor's JSON or from browser storage. Objects keep their keys in enumeration order.
 * Numbers are integers (no floating point, no NaN, no -0).
 */
module Json {

  datatype Value =
    | Undefined
    | Null
    | Bool(b: bool)
    | Int(i: int)
    | Str(s: string)
    | Arr(elems: seq<Value>)
    | Obj(fields: seq<Field>)

  datatype Field = Field(key: string, val: Value)

  /** JavaScript truthiness (`!!v`): undefined, null, false, 0 and "" are falsy. */
  predicate Truthy(v: Value) {
    match v
    case Undefined => false
    case Null => false
    case Bool(b) => b
    case Int(i) => i != 0
    case Str(s) => s != ""
    case Arr(_) => true
    case Obj(_) => true
  }

  /**
   * `Object.is(x, y)`. Primitives compare by value. Two arrays or two objects are never the same
   * reference here, because the two sides of every comparison come from separate JSON decodings.
   */
  predicate SameValue(x: Value, y: Value) {
    match (x, y)
    case (Undefined, Undefined) => true
    case (Null, Null) => true
    case (Bool(p), Bool(q)) => p == q
    case (Int(m), Int(n)) => m == n
    case (Str(s), Str(t)) => s == t
    case _ => false
  }

  function DigitChar(d: nat): (c: char)
    requires d < 10
    ensures '0' <= c <= '9'
  {
    ['0', '1', '2', '3', '4', '5', '6', '7', '8', '9'][d]
  }

  /** The decimal text of a natural number, as `String(n)` writes it. */
  function NatToString(n: nat): (r: string)
    ensures |r| > 0
    ensures forall i :: 0 <= i < |r| ==> '0' <= r[i] <= '9'
    decreases n
  {
    if n < 10 then [DigitChar(n)] else NatToString(n / 10) + [DigitChar(n % 10)]
  }

  /** The decimal text of an integer, with a leading '-' when negative. */
  function IntToString(i: int): (r: string)
    ensures |r| > 0
    ensures (r[0] == '-') == (i < 0)
  {
    if i < 0 then "-" + NatToString(-i) else NatToString(i)
  }

  /**
   * The own enumerable properties of a value, as `Object.keys(v)` paired with `v[key]`:
   * the fields of an object, the indices of an array or of a string, nothing for other values.
   */
  function Entries(v: Value): (r: seq<Field>)
    ensures v.Obj? ==> r == v.fields
    ensures !v.Obj? && !v.Arr? && !v.Str? ==> r == []
  {
    match v
    case Obj(fs) => fs
    case Arr(xs) => seq(|xs|, i requires 0 <= i < |xs| => Field(NatToString(i), xs[i]))
    case Str(s) => seq(|s|, i requires 0 <= i < |s| => Field(NatToString(i), Str([s[i]])))
    case _ => []
  }

  function Keys(v: Value): (r: seq<string>)
    ensures |r| == |Entries(v)|
    ensures forall i :: 0 <= i < |r| ==> r[i] == Entries(v)[i].key
  {
    seq(|Entries(v)|, i requires 0 <= i < |Entries(v)| => Entries(v)[i].key)
  }

  /** The value stored under key k in a field list (the first one), or undefined. */
  function Lookup(fs: seq<Field>, k: string): (r: Value) {
    if fs == [] then Undefined
    else if fs[0].key == k then fs[0].val
    else Lookup(fs[1..], k)
  }

  /** Property access `v[k]` (and `v?.k`): undefined when v has no such own property. */
  function Get(v: Value, k: string): (r: Value) {
    Lookup(Entries(v), k)
  }

  /** `v || {}`: a falsy value is replaced by the empty object. */
  function Root(v: Value): (r: Value)
    ensures Truthy(v) ==> r == v
    ensures Entries(r) == Entries(v)
  {
    if Truthy(v) then v else Obj([])
  }

  /** A value found under key k is the value of a field with key k. */
  lemma {:induction false} LookupFound(fs: seq<Field>, k: string)
    ensures Lookup(fs, k) == Undefined ||
            exists i :: 0 <= i < |fs| && fs[i].key == k && fs[i].val == Lookup(fs, k)
  {
    if fs != [] && fs[0].key != k {
      LookupFound(fs[1..], k);
      if Lookup(fs, k) != Undefined {
        var i :| 0 <= i < |fs[1..]| && fs[1..][i].key == k && fs[1..][i].val == Lookup(fs, k);
        assert fs[i + 1] == fs[1..][i];
      }
    }
  }

  /** An object found under a key of v is structurally smaller than v (used for termination). */
  lemma GetObjectIsSmaller(v: Value, k: string)
    ensures Get(Root(v), k).Obj? ==> Get(Root(v), k) < v
  {
    var x := Get(v, k);
    assert Get(Root(v), k) == x;
    LookupFound(Entries(v), k);
    if x.Obj? {
      var i :| 0 <= i < |Entries(v)| && Entries(v)[i].key == k && Entries(v)[i].val == x;
      match v
      case Obj(fs) =>
        assert fs[i] in fs;
      case Arr(xs) =>
        assert xs[i] == x;
      case Str(s) =>
        assert false;
    }
  }
}
