/**
 * Properties of compareObjects that depend on what the keys look like.
 *
 * A dotted path names one chain of keys only when no key is empty and no key contains '.'.
 * Under that condition the diff of (b, a) holds every entry of the diff of (a, b) with old and
 * new swapped, and the ignore-list entries that end in '.' have no effect.
 * Without it two chains can share a path and the later one overwrites the earlier
 * (CollisionExample).
 */
module DiffValues {
  import opened Json
  import opened Helpers
  import opened DiffProperties

  /** A key that is one segment of a dotted path: non-empty and without '.'. */
  predicate SafeKey(k: string) {
    k != "" && forall i :: 0 <= i < |k| ==> k[i] != '.'
  }

  /** Every object key inside v, at any depth, is a SafeKey. */
  ghost predicate SafeKeys(v: Value)
    decreases v
  {
    match v
    case Obj(fs) => forall i :: 0 <= i < |fs| ==> SafeKey(fs[i].key) && SafeKeys(fs[i].val)
    case Arr(xs) => forall i :: 0 <= i < |xs| ==> SafeKeys(xs[i])
    case _ => true
  }

  /** The keys compareObjects enumerates for a safe value are safe: field names or indices. */
  lemma KeysSafe(v: Value, k: string)
    requires SafeKeys(v) && k in Keys(Root(v))
    ensures SafeKey(k)
  {
    var i :| 0 <= i < |Keys(Root(v))| && Keys(Root(v))[i] == k;
    assert k == Entries(v)[i].key;
    match v
    case Obj(fs) =>
    case Arr(xs) =>
      assert k == NatToString(i);
    case Str(s) =>
      assert k == NatToString(i);
  }

  /** An object found under a key of a safe value is safe. */
  lemma ChildSafe(v: Value, k: string)
    requires SafeKeys(v) && Get(Root(v), k).Obj?
    ensures SafeKeys(Get(Root(v), k))
  {
    var x := Get(v, k);
    LookupFound(Entries(v), k);
    var i :| 0 <= i < |Entries(v)| && Entries(v)[i].key == k && Entries(v)[i].val == x;
    match v
    case Obj(fs) =>
    case Arr(xs) =>
      assert xs[i] == x;
  }

  /** One step of a change from safe roots uses a safe key and, below it, safe values. */
  lemma StepSafe(ign: seq<string>, a: Value, b: Value, path: string, k: string)
    requires SafeKeys(a) && SafeKeys(b)
    requires Differs(ign, a, b, path, k)
    ensures SafeKey(k)
    ensures IsObject(Get(Root(a), k)) && IsObject(Get(Root(b), k)) ==>
              SafeKeys(Get(Root(a), k)) && SafeKeys(Get(Root(b), k))
  {
    assert k in AllKeys(a, b);
    if k in Keys(Root(a)) { KeysSafe(a, k); } else { KeysSafe(b, k); }
    if IsObject(Get(Root(a), k)) && IsObject(Get(Root(b), k)) {
      ChildSafe(a, k);
      ChildSafe(b, k);
    }
  }

  lemma {:induction false} ChangeKeysSafe(ign: seq<string>, a: Value, b: Value, path: string,
                                          segs: seq<string>, o: Value, n: Value)
    requires SafeKeys(a) && SafeKeys(b)
    requires IsChange(ign, a, b, path, segs, o, n)
    ensures forall j :: 0 <= j < |segs| ==> SafeKey(segs[j])
    decreases |segs|
  {
    var k := segs[0];
    StepSafe(ign, a, b, path, k);
    if |segs| > 1 {
      var rest := segs[1..];
      ChangeKeysSafe(ign, Get(Root(a), k), Get(Root(b), k), Join(path, k), rest, o, n);
      forall j | 0 <= j < |segs| ensures SafeKey(segs[j]) {
        if j > 0 { assert segs[j] == rest[j - 1]; }
      }
    }
  }

  /** The segments joined by '.'. */
  function Dotted(segs: seq<string>): (r: string)
    requires |segs| > 0
  {
    if |segs| == 1 then segs[0] else segs[0] + "." + Dotted(segs[1..])
  }

  lemma {:induction false} PathFromDotted(path: string, segs: seq<string>)
    requires |segs| > 0
    requires forall j :: 0 <= j < |segs| ==> segs[j] != ""
    ensures PathFrom(path, segs) == Join(path, Dotted(segs))
    decreases |segs|
  {
    if |segs| > 1 {
      var q := Join(path, segs[0]);
      PathFromDotted(q, segs[1..]);
      if path != "" {
        assert q + "." + Dotted(segs[1..]) == path + "." + (segs[0] + "." + Dotted(segs[1..]));
      }
    }
  }

  lemma JoinInjective(path: string, x: string, y: string)
    requires Join(path, x) == Join(path, y)
    ensures x == y
  {
    if path != "" {
      assert (path + "." + x)[|path| + 1..] == x;
      assert (path + "." + y)[|path| + 1..] == y;
    }
  }

  /** The first segment ends where the first '.' of the dotted text is. */
  lemma FirstDot(segs: seq<string>)
    requires |segs| > 0
    requires forall j :: 0 <= j < |segs| ==> SafeKey(segs[j])
    ensures forall i :: 0 <= i < |segs[0]| ==> Dotted(segs)[i] == segs[0][i] != '.'
    ensures |segs| == 1 ==> Dotted(segs) == segs[0]
    ensures |segs| > 1 ==> |segs[0]| < |Dotted(segs)| && Dotted(segs)[|segs[0]|] == '.' &&
                           Dotted(segs)[|segs[0]| + 1..] == Dotted(segs[1..])
  {
  }

  /** For safe segments, the dotted text determines the segments. */
  lemma {:induction false} DottedInjective(s: seq<string>, t: seq<string>)
    requires |s| > 0 && |t| > 0
    requires forall j :: 0 <= j < |s| ==> SafeKey(s[j])
    requires forall j :: 0 <= j < |t| ==> SafeKey(t[j])
    requires Dotted(s) == Dotted(t)
    ensures s == t
    decreases |s|
  {
    FirstDot(s);
    FirstDot(t);
    var m, n := |s[0]|, |t[0]|;
    if |s| > 1 && |t| > 1 && m == n {
      assert s[0] == Dotted(s)[..m] == t[0];
      DottedInjective(s[1..], t[1..]);
      assert s == [s[0]] + s[1..] && t == [t[0]] + t[1..];
    }
  }

  /** Two safe chains that reach the same path are the same chain. */
  lemma PathFromInjective(path: string, s: seq<string>, t: seq<string>)
    requires |s| > 0 && |t| > 0
    requires forall j :: 0 <= j < |s| ==> SafeKey(s[j])
    requires forall j :: 0 <= j < |t| ==> SafeKey(t[j])
    requires PathFrom(path, s) == PathFrom(path, t)
    ensures s == t
  {
    PathFromDotted(path, s);
    PathFromDotted(path, t);
    JoinInjective(path, Dotted(s), Dotted(t));
    DottedInjective(s, t);
  }

  /** A chain of keys determines the change it reaches. */
  lemma {:induction false} IsChangeFunctional(ign: seq<string>, a: Value, b: Value, path: string,
                                              segs: seq<string>, o: Value, n: Value, o': Value, n': Value)
    requires IsChange(ign, a, b, path, segs, o, n) && IsChange(ign, a, b, path, segs, o', n')
    ensures o == o' && n == n'
    decreases |segs|
  {
    if |segs| > 1 {
      var k := segs[0];
      IsChangeFunctional(ign, Get(Root(a), k), Get(Root(b), k), Join(path, k), segs[1..], o, n, o', n');
    }
  }

  /**
   * With safe keys, every entry of compareObjects(a, b) appears in compareObjects(b, a) with
   * old and new swapped.
   */
  lemma DiffValuesSymmetric(ign: seq<string>, a: Value, b: Value, path: string, e: DiffEntry)
    requires SafeKeys(a) && SafeKeys(b)
    requires e in DiffObjects(ign, a, b, path, [])
    ensures DiffEntry(e.path, e.newValue, e.oldValue) in DiffObjects(ign, b, a, path, [])
  {
    ObjectsSound(ign, a, b, path, [], e);
    var segs :| IsChange(ign, a, b, path, segs, e.oldValue, e.newValue) && PathFrom(path, segs) == e.path;
    IsChangeSwap(ign, a, b, path, segs, e.oldValue, e.newValue);
    ObjectsComplete(ign, b, a, path, [], segs, e.newValue, e.oldValue);
    var d := DiffObjects(ign, b, a, path, []);
    var e' :| e' in d && e'.path == e.path;
    ObjectsSound(ign, b, a, path, [], e');
    var segs' :| IsChange(ign, b, a, path, segs', e'.oldValue, e'.newValue) && PathFrom(path, segs') == e'.path;
    ChangeKeysSafe(ign, a, b, path, segs, e.oldValue, e.newValue);
    ChangeKeysSafe(ign, b, a, path, segs', e'.oldValue, e'.newValue);
    PathFromInjective(path, segs, segs');
    IsChangeFunctional(ign, b, a, path, segs, e.newValue, e.oldValue, e'.oldValue, e'.newValue);
    assert e' == DiffEntry(e.path, e.newValue, e.oldValue);
  }

  // ---------------------------------------------------------------------------------------
  // Ignore-list entries that end in '.'.
  // ---------------------------------------------------------------------------------------

  predicate EndsWithDot(s: string) {
    |s| > 0 && s[|s| - 1] == '.'
  }

  /** A path ending in '.' comes from an empty key or from a key that itself ends in '.'. */
  lemma DottedPathNeedsDottedKey(path: string, k: string)
    ensures EndsWithDot(Join(path, k)) ==> k == "" || EndsWithDot(k)
  {
  }

  /** The ignore list without its entries that end in '.'. */
  function WithoutDotted(list: seq<string>): (r: seq<string>)
    ensures forall q :: q in r <==> q in list && !EndsWithDot(q)
  {
    if list == [] then []
    else if EndsWithDot(list[0]) then WithoutDotted(list[1..])
    else [list[0]] + WithoutDotted(list[1..])
  }

  lemma {:induction false} KeyDotted(ign: seq<string>, a: Value, b: Value, k: string, path: string, acc: OrderDiff)
    requires SafeKeys(a) && SafeKeys(b) && k in AllKeys(a, b)
    ensures DiffKey(ign, a, b, k, path, acc) == DiffKey(WithoutDotted(ign), a, b, k, path, acc)
    decreases a, 0
  {
    DiffKeyCases(ign, a, b, k, path, acc);
    DiffKeyCases(WithoutDotted(ign), a, b, k, path, acc);
    if k in Keys(Root(a)) { KeysSafe(a, k); } else { KeysSafe(b, k); }
    var p := Join(path, k);
    DottedPathNeedsDottedKey(path, k);
    var x := Get(Root(a), k);
    var y := Get(Root(b), k);
    if IsObject(x) && IsObject(y) {
      GetObjectIsSmaller(a, k);
      ChildSafe(a, k);
      ChildSafe(b, k);
      ObjectsDotted(ign, x, y, p, acc);
    }
  }

  lemma {:induction false} KeysDotted(ign: seq<string>, a: Value, b: Value, keys: seq<string>, path: string,
                                      acc: OrderDiff)
    requires SafeKeys(a) && SafeKeys(b)
    requires forall k :: k in keys ==> k in AllKeys(a, b)
    ensures DiffKeys(ign, a, b, keys, path, acc) == DiffKeys(WithoutDotted(ign), a, b, keys, path, acc)
    decreases a, 1, |keys|
  {
    if keys != [] {
      KeyDotted(ign, a, b, keys[0], path, acc);
      KeysDotted(ign, a, b, keys[1..], path, DiffKey(ign, a, b, keys[0], path, acc));
    }
  }

  /**
   * On values with safe keys no path ends in '.', so the ignore-list entries that end in '.'
   * change nothing: the diff is the same without them.
   */
  lemma {:induction false} ObjectsDotted(ign: seq<string>, a: Value, b: Value, path: string, acc: OrderDiff)
    requires SafeKeys(a) && SafeKeys(b)
    ensures DiffObjects(ign, a, b, path, acc) == DiffObjects(WithoutDotted(ign), a, b, path, acc)
    decreases a, 2
  {
    KeysDotted(ign, a, b, AllKeys(a, b), path, acc);
  }
}
