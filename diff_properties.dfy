/**
 * What compareObjects computes, stated against an independent per-path definition of a change.
 *
 * A change is named by the list of keys `segs` that leads from the roots to it. IsChange says
 * that following those keys on both sides meets no ignored path and no identical pair, passes
 * only through pairs of objects, and ends at a pair the diff records.
 */
module DiffProperties {
  import opened Json
  import opened Helpers

  /** The dotted path reached from `path` by following the keys segs. */
  function PathFrom(path: string, segs: seq<string>): (r: string)
    decreases |segs|
  {
    if segs == [] then path else PathFrom(Join(path, segs[0]), segs[1..])
  }

  /** A differing pair that is recorded where it stands: not two objects, not two equal arrays. */
  predicate Recorded(x: Value, y: Value) {
    !(IsObject(x) && IsObject(y)) && !(x.Arr? && y.Arr? && ArraysEqual(x.elems, y.elems))
  }

  /** Key k is on both sides' key list, its path is not ignored and its two values differ. */
  predicate Differs(ign: seq<string>, a: Value, b: Value, path: string, k: string) {
    k in AllKeys(a, b) && Join(path, k) !in ign && !SameValue(Get(Root(a), k), Get(Root(b), k))
  }

  /** Following segs from the roots a and b (at `path`) reaches a recorded change from o to n. */
  ghost predicate IsChange(ign: seq<string>, a: Value, b: Value, path: string, segs: seq<string>,
                           o: Value, n: Value)
    decreases |segs|
  {
    |segs| > 0 &&
    var x := Get(Root(a), segs[0]);
    var y := Get(Root(b), segs[0]);
    Differs(ign, a, b, path, segs[0]) &&
    if |segs| == 1 then Recorded(x, y) && o == x && n == y
    else IsObject(x) && IsObject(y) && IsChange(ign, x, y, Join(path, segs[0]), segs[1..], o, n)
  }

  /** Entry e is a change between a and b at its own path. */
  ghost predicate Justified(ign: seq<string>, a: Value, b: Value, path: string, e: DiffEntry) {
    exists segs :: IsChange(ign, a, b, path, segs, e.oldValue, e.newValue) && PathFrom(path, segs) == e.path
  }

  /** A change below key k, where both sides hold objects, is a change from the roots. */
  lemma ExtendJustified(ign: seq<string>, a: Value, b: Value, path: string, k: string, e: DiffEntry)
    requires Differs(ign, a, b, path, k)
    requires IsObject(Get(Root(a), k)) && IsObject(Get(Root(b), k))
    requires Justified(ign, Get(Root(a), k), Get(Root(b), k), Join(path, k), e)
    ensures Justified(ign, a, b, path, e)
  {
    var segs :| IsChange(ign, Get(Root(a), k), Get(Root(b), k), Join(path, k), segs, e.oldValue, e.newValue) &&
                PathFrom(Join(path, k), segs) == e.path;
    var s := [k] + segs;
    assert s[0] == k && s[1..] == segs;
    assert PathFrom(path, s) == PathFrom(Join(path, k), segs);
    assert IsChange(ign, a, b, path, s, e.oldValue, e.newValue) && PathFrom(path, s) == e.path;
  }

  /** A recorded pair under key k is a change from the roots. */
  lemma LeafJustified(ign: seq<string>, a: Value, b: Value, path: string, k: string)
    requires Differs(ign, a, b, path, k)
    requires Recorded(Get(Root(a), k), Get(Root(b), k))
    ensures Justified(ign, a, b, path, DiffEntry(Join(path, k), Get(Root(a), k), Get(Root(b), k)))
  {
    assert IsChange(ign, a, b, path, [k], Get(Root(a), k), Get(Root(b), k));
    assert PathFrom(path, [k]) == Join(path, k);
  }

  // ---------------------------------------------------------------------------------------
  // Soundness: every entry the diff adds is a change.
  // ---------------------------------------------------------------------------------------

  lemma {:induction false} KeySound(ign: seq<string>, a: Value, b: Value, k: string, path: string,
                                    acc: OrderDiff, e: DiffEntry)
    requires k in AllKeys(a, b)
    requires e in DiffKey(ign, a, b, k, path, acc)
    ensures e in acc || Justified(ign, a, b, path, e)
    decreases a, 0
  {
    DiffKeyCases(ign, a, b, k, path, acc);
    var p := Join(path, k);
    var x := Get(Root(a), k);
    var y := Get(Root(b), k);
    if p in ign || SameValue(x, y) {
    } else if IsObject(x) && IsObject(y) {
      GetObjectIsSmaller(a, k);
      ObjectsSound(ign, x, y, p, acc, e);
      if e !in acc {
        ExtendJustified(ign, a, b, path, k, e);
      }
    } else if x.Arr? && y.Arr? && ArraysEqual(x.elems, y.elems) {
    } else {
      PutContents(acc, DiffEntry(p, x, y));
      LeafJustified(ign, a, b, path, k);
    }
  }

  lemma {:induction false} KeysSound(ign: seq<string>, a: Value, b: Value, keys: seq<string>, path: string,
                                     acc: OrderDiff, e: DiffEntry)
    requires forall k :: k in keys ==> k in AllKeys(a, b)
    requires e in DiffKeys(ign, a, b, keys, path, acc)
    ensures e in acc || Justified(ign, a, b, path, e)
    decreases a, 1, |keys|
  {
    if keys != [] {
      var acc' := DiffKey(ign, a, b, keys[0], path, acc);
      KeysSound(ign, a, b, keys[1..], path, acc', e);
      if e in acc' {
        KeySound(ign, a, b, keys[0], path, acc, e);
      }
    }
  }

  /** Every entry of a diff was in the accumulator already or is a change between a and b. */
  lemma {:induction false} ObjectsSound(ign: seq<string>, a: Value, b: Value, path: string,
                                        acc: OrderDiff, e: DiffEntry)
    requires e in DiffObjects(ign, a, b, path, acc)
    ensures e in acc || Justified(ign, a, b, path, e)
    decreases a, 2
  {
    KeysSound(ign, a, b, AllKeys(a, b), path, acc, e);
  }

  // ---------------------------------------------------------------------------------------
  // Completeness: every change is reported at its path, and no path is ever dropped.
  // ---------------------------------------------------------------------------------------

  lemma {:induction false} KeyKeeps(ign: seq<string>, a: Value, b: Value, k: string, path: string, acc: OrderDiff)
    ensures Paths(acc) <= Paths(DiffKey(ign, a, b, k, path, acc))
    decreases a, 0
  {
    DiffKeyCases(ign, a, b, k, path, acc);
    var p := Join(path, k);
    var x := Get(Root(a), k);
    var y := Get(Root(b), k);
    if p in ign || SameValue(x, y) {
    } else if IsObject(x) && IsObject(y) {
      GetObjectIsSmaller(a, k);
      ObjectsKeep(ign, x, y, p, acc);
    } else if x.Arr? && y.Arr? && ArraysEqual(x.elems, y.elems) {
    } else {
      PutPaths(acc, DiffEntry(p, x, y));
    }
  }

  lemma {:induction false} KeysKeep(ign: seq<string>, a: Value, b: Value, keys: seq<string>, path: string, acc: OrderDiff)
    ensures Paths(acc) <= Paths(DiffKeys(ign, a, b, keys, path, acc))
    decreases a, 1, |keys|
  {
    if keys != [] {
      KeyKeeps(ign, a, b, keys[0], path, acc);
      KeysKeep(ign, a, b, keys[1..], path, DiffKey(ign, a, b, keys[0], path, acc));
    }
  }

  /** The diff only adds paths to the accumulator. */
  lemma {:induction false} ObjectsKeep(ign: seq<string>, a: Value, b: Value, path: string, acc: OrderDiff)
    ensures Paths(acc) <= Paths(DiffObjects(ign, a, b, path, acc))
    decreases a, 2
  {
    KeysKeep(ign, a, b, AllKeys(a, b), path, acc);
  }

  lemma {:induction false} KeyComplete(ign: seq<string>, a: Value, b: Value, path: string, acc: OrderDiff,
                                       segs: seq<string>, o: Value, n: Value)
    requires IsChange(ign, a, b, path, segs, o, n)
    ensures PathFrom(path, segs) in Paths(DiffKey(ign, a, b, segs[0], path, acc))
    decreases a, 0
  {
    var k := segs[0];
    DiffKeyCases(ign, a, b, k, path, acc);
    var p := Join(path, k);
    var x := Get(Root(a), k);
    var y := Get(Root(b), k);
    if |segs| == 1 {
      PutPaths(acc, DiffEntry(p, x, y));
    } else {
      GetObjectIsSmaller(a, k);
      ObjectsComplete(ign, x, y, p, acc, segs[1..], o, n);
    }
  }

  lemma {:induction false} KeysComplete(ign: seq<string>, a: Value, b: Value, keys: seq<string>, path: string,
                                        acc: OrderDiff, segs: seq<string>, o: Value, n: Value)
    requires IsChange(ign, a, b, path, segs, o, n)
    requires segs[0] in keys
    ensures PathFrom(path, segs) in Paths(DiffKeys(ign, a, b, keys, path, acc))
    decreases a, 1, |keys|
  {
    var acc' := DiffKey(ign, a, b, keys[0], path, acc);
    if keys[0] == segs[0] {
      KeyComplete(ign, a, b, path, acc, segs, o, n);
      KeysKeep(ign, a, b, keys[1..], path, acc');
    } else {
      KeysComplete(ign, a, b, keys[1..], path, acc', segs, o, n);
    }
  }

  /** Every change between a and b is reported at its path. */
  lemma {:induction false} ObjectsComplete(ign: seq<string>, a: Value, b: Value, path: string, acc: OrderDiff,
                                           segs: seq<string>, o: Value, n: Value)
    requires IsChange(ign, a, b, path, segs, o, n)
    ensures PathFrom(path, segs) in Paths(DiffObjects(ign, a, b, path, acc))
    decreases a, 2
  {
    KeysComplete(ign, a, b, AllKeys(a, b), path, acc, segs, o, n);
  }

  // ---------------------------------------------------------------------------------------
  // Symmetry: the diffs of (a, b) and (b, a) report the same paths.
  // ---------------------------------------------------------------------------------------

  lemma SameValueSymmetric(x: Value, y: Value)
    ensures SameValue(x, y) == SameValue(y, x)
  {
  }

  /** A key that differs from a to b differs from b to a. */
  lemma DiffersSwap(ign: seq<string>, a: Value, b: Value, path: string, k: string)
    requires Differs(ign, a, b, path, k)
    ensures Differs(ign, b, a, path, k)
  {
    assert k in Keys(Root(a)) || k in Keys(Root(b));
    assert k in AllKeys(b, a);
    SameValueSymmetric(Get(Root(a), k), Get(Root(b), k));
  }

  /** A change from a to b, read backwards, is a change from b to a with old and new swapped. */
  lemma {:induction false} IsChangeSwap(ign: seq<string>, a: Value, b: Value, path: string,
                                        segs: seq<string>, o: Value, n: Value)
    requires IsChange(ign, a, b, path, segs, o, n)
    ensures IsChange(ign, b, a, path, segs, n, o)
    decreases |segs|
  {
    var k := segs[0];
    DiffersSwap(ign, a, b, path, k);
    if |segs| > 1 {
      IsChangeSwap(ign, Get(Root(a), k), Get(Root(b), k), Join(path, k), segs[1..], o, n);
    }
  }

  lemma PathsOneWay(ign: seq<string>, a: Value, b: Value, path: string)
    ensures Paths(DiffObjects(ign, a, b, path, [])) <= Paths(DiffObjects(ign, b, a, path, []))
  {
    var d := DiffObjects(ign, a, b, path, []);
    forall p | p in Paths(d) ensures p in Paths(DiffObjects(ign, b, a, path, [])) {
      var e :| e in d && e.path == p;
      ObjectsSound(ign, a, b, path, [], e);
      var segs :| IsChange(ign, a, b, path, segs, e.oldValue, e.newValue) && PathFrom(path, segs) == e.path;
      IsChangeSwap(ign, a, b, path, segs, e.oldValue, e.newValue);
      ObjectsComplete(ign, b, a, path, [], segs, e.newValue, e.oldValue);
    }
  }

  /** A path is reported by compareObjects(a, b) iff it is reported by compareObjects(b, a). */
  lemma PathsSymmetric(ign: seq<string>, a: Value, b: Value, path: string)
    ensures Paths(DiffObjects(ign, a, b, path, [])) == Paths(DiffObjects(ign, b, a, path, []))
  {
    PathsOneWay(ign, a, b, path);
    PathsOneWay(ign, b, a, path);
  }

  // ---------------------------------------------------------------------------------------
  // Diffing a value with itself.
  // ---------------------------------------------------------------------------------------

  lemma {:induction false} KeySelf(ign: seq<string>, a: Value, k: string, path: string, acc: OrderDiff)
    ensures DiffKey(ign, a, a, k, path, acc) == acc
    decreases a, 0
  {
    DiffKeyCases(ign, a, a, k, path, acc);
    var x := Get(Root(a), k);
    if IsObject(x) {
      GetObjectIsSmaller(a, k);
      ObjectsSelf(ign, x, Join(path, k), acc);
    }
  }

  lemma {:induction false} KeysSelf(ign: seq<string>, a: Value, keys: seq<string>, path: string, acc: OrderDiff)
    ensures DiffKeys(ign, a, a, keys, path, acc) == acc
    decreases a, 1, |keys|
  {
    if keys != [] {
      KeySelf(ign, a, keys[0], path, acc);
      KeysSelf(ign, a, keys[1..], path, acc);
    }
  }

  /** compareObjects(x, x) adds nothing: diffing a snapshot with itself is empty. */
  lemma {:induction false} ObjectsSelf(ign: seq<string>, a: Value, path: string, acc: OrderDiff)
    ensures DiffObjects(ign, a, a, path, acc) == acc
    decreases a, 2
  {
    KeysSelf(ign, a, AllKeys(a, a), path, acc);
  }

  // ---------------------------------------------------------------------------------------
  // Each path at most once.
  // ---------------------------------------------------------------------------------------

  lemma ConsUnique(h: DiffEntry, t: OrderDiff)
    requires UniquePaths(t) && h.path !in Paths(t)
    ensures UniquePaths([h] + t)
  {
    var s := [h] + t;
    assert forall j :: 0 < j < |s| ==> s[j] == t[j - 1];
    assert forall j :: 0 <= j < |t| ==> t[j] in t;
  }

  lemma {:induction false} PutUnique(d: OrderDiff, e: DiffEntry)
    requires UniquePaths(d)
    ensures UniquePaths(Put(d, e))
  {
    if d == [] {
    } else if d[0].path == e.path {
      ConsUnique(e, d[1..]);
    } else {
      PutUnique(d[1..], e);
      PutPaths(d[1..], e);
      forall x | x in d[1..] ensures x.path != d[0].path {
        var i :| 0 <= i < |d[1..]| && d[1..][i] == x;
        assert d[i + 1] == x;
      }
      ConsUnique(d[0], Put(d[1..], e));
    }
  }

  lemma {:induction false} KeyUnique(ign: seq<string>, a: Value, b: Value, k: string, path: string, acc: OrderDiff)
    requires UniquePaths(acc)
    ensures UniquePaths(DiffKey(ign, a, b, k, path, acc))
    decreases a, 0
  {
    DiffKeyCases(ign, a, b, k, path, acc);
    var p := Join(path, k);
    var x := Get(Root(a), k);
    var y := Get(Root(b), k);
    if p in ign || SameValue(x, y) {
    } else if IsObject(x) && IsObject(y) {
      GetObjectIsSmaller(a, k);
      ObjectsUnique(ign, x, y, p, acc);
    } else if x.Arr? && y.Arr? && ArraysEqual(x.elems, y.elems) {
    } else {
      PutUnique(acc, DiffEntry(p, x, y));
    }
  }

  lemma {:induction false} KeysUnique(ign: seq<string>, a: Value, b: Value, keys: seq<string>, path: string, acc: OrderDiff)
    requires UniquePaths(acc)
    ensures UniquePaths(DiffKeys(ign, a, b, keys, path, acc))
    decreases a, 1, |keys|
  {
    if keys != [] {
      KeyUnique(ign, a, b, keys[0], path, acc);
      KeysUnique(ign, a, b, keys[1..], path, DiffKey(ign, a, b, keys[0], path, acc));
    }
  }

  /** The diff keeps one entry per path. */
  lemma {:induction false} ObjectsUnique(ign: seq<string>, a: Value, b: Value, path: string, acc: OrderDiff)
    requires UniquePaths(acc)
    ensures UniquePaths(DiffObjects(ign, a, b, path, acc))
    decreases a, 2
  {
    KeysUnique(ign, a, b, AllKeys(a, b), path, acc);
  }

  // ---------------------------------------------------------------------------------------
  // Ignored paths.
  // ---------------------------------------------------------------------------------------

  /** No path on the way to a change, the change's own path included, is ignored. */
  lemma {:induction false} ChangeAvoidsIgnored(ign: seq<string>, a: Value, b: Value, path: string,
                                               segs: seq<string>, o: Value, n: Value)
    requires IsChange(ign, a, b, path, segs, o, n)
    ensures forall j :: 1 <= j <= |segs| ==> PathFrom(path, segs[..j]) !in ign
    decreases |segs|
  {
    var k := segs[0];
    var p := Join(path, k);
    if |segs| > 1 {
      ChangeAvoidsIgnored(ign, Get(Root(a), k), Get(Root(b), k), p, segs[1..], o, n);
    }
    forall j | 1 <= j <= |segs| ensures PathFrom(path, segs[..j]) !in ign {
      var t := segs[..j];
      assert t[0] == k && t[1..] == segs[1..][..j - 1];
      assert PathFrom(path, t) == PathFrom(p, segs[1..][..j - 1]);
    }
  }

  /**
   * Every entry of a diff sits at the end of a chain of keys on which no path, its own included,
   * belongs to the ignore list.
   */
  lemma DiffAvoidsIgnored(ign: seq<string>, a: Value, b: Value, path: string, e: DiffEntry)
    requires e in DiffObjects(ign, a, b, path, [])
    ensures e.path !in ign
    ensures exists segs :: |segs| > 0 && PathFrom(path, segs) == e.path &&
              forall j :: 1 <= j <= |segs| ==> PathFrom(path, segs[..j]) !in ign
  {
    ObjectsSound(ign, a, b, path, [], e);
    var segs :| IsChange(ign, a, b, path, segs, e.oldValue, e.newValue) && PathFrom(path, segs) == e.path;
    ChangeAvoidsIgnored(ign, a, b, path, segs, e.oldValue, e.newValue);
    assert segs[..|segs|] == segs;
  }

  // ---------------------------------------------------------------------------------------
  // The diff of two order snapshots, with the dashboard's ignore list.
  // ---------------------------------------------------------------------------------------

  /** Diffing a snapshot with itself reports nothing. */
  lemma DiffSelfEmpty(a: Value)
    ensures Diff(a, a) == []
  {
    ObjectsSelf(HistoryTranslationsIgnored, a, "", []);
  }

  /** Both directions of a diff report the same paths. */
  lemma DiffPathsSymmetric(a: Value, b: Value)
    ensures Paths(Diff(a, b)) == Paths(Diff(b, a))
  {
    PathsSymmetric(HistoryTranslationsIgnored, a, b, "");
  }

  /** A diff holds at most one entry per path. */
  lemma DiffUniquePaths(a: Value, b: Value)
    ensures UniquePaths(Diff(a, b))
  {
    ObjectsUnique(HistoryTranslationsIgnored, a, b, "", []);
  }

  /** No reported path is on the ignore list. */
  lemma DiffNeverIgnored(a: Value, b: Value)
    ensures forall e :: e in Diff(a, b) ==> !Ignored(e.path)
  {
    forall e | e in Diff(a, b) ensures !Ignored(e.path) {
      DiffAvoidsIgnored(HistoryTranslationsIgnored, a, b, "", e);
    }
  }
}
