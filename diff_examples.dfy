/** Worked instances of compareObjects on small snapshots. */
module DiffExamples {
  import opened Json
  import opened Helpers
  import opened DiffProperties

  lemma KeysOne(ign: seq<string>, a: Value, b: Value, k: string, path: string, acc: OrderDiff)
    ensures DiffKeys(ign, a, b, [k], path, acc) == DiffKey(ign, a, b, k, path, acc)
  {
    assert [k][1..] == [];
  }

  lemma KeysTwo(ign: seq<string>, a: Value, b: Value, k1: string, k2: string, path: string, acc: OrderDiff)
    ensures DiffKeys(ign, a, b, [k1, k2], path, acc) ==
            DiffKey(ign, a, b, k2, path, DiffKey(ign, a, b, k1, path, acc))
  {
    assert [k1, k2][1..] == [k2];
    KeysOne(ign, a, b, k2, path, DiffKey(ign, a, b, k1, path, acc));
  }

  lemma KeysOfOne(k: string, v: Value)
    ensures Keys(Root(Obj([Field(k, v)]))) == [k]
  {
  }

  lemma KeysOfTwo(k1: string, v1: Value, k2: string, v2: Value)
    ensures Keys(Root(Obj([Field(k1, v1), Field(k2, v2)]))) == [k1, k2]
  {
  }

  lemma DedupTwo(k1: string, k2: string)
    requires k1 != k2
    ensures Dedup([k1, k2, k2, k1]) == [k1, k2]
  {
    var s := [k1, k2, k2, k1];
    assert s[..3] == [k1, k2, k2];
    assert s[..3][..2] == [k1, k2];
    assert s[..3][..2][..1] == [k1];
    assert [k1][..0] == [];
    assert Dedup([k1]) == [k1];
    assert Dedup([k1, k2]) == [k1, k2];
    assert Dedup([k1, k2, k2]) == [k1, k2];
  }

  /** The inner objects {"": 1} and {"": 2} below "x" differ at the path "x.". */
  lemma InnerStep(ign: seq<string>, i: int, j: int, acc: OrderDiff)
    requires "x." !in ign && i != j
    ensures DiffObjects(ign, Obj([Field("", Int(i))]), Obj([Field("", Int(j))]), "x", acc) ==
            Put(acc, DiffEntry("x.", Int(i), Int(j)))
  {
    var u := Obj([Field("", Int(i))]);
    var v := Obj([Field("", Int(j))]);
    KeysOfOne("", Int(i));
    KeysOfOne("", Int(j));
    assert [""] + [""] == ["", ""];
    assert Dedup(["", ""]) == [""] by {
      assert ["", ""][..1] == [""];
      assert [""][..0] == [];
    }
    assert AllKeys(u, v) == [""];
    KeysOne(ign, u, v, "", "x", acc);
    DiffKeyCases(ign, u, v, "", "x", acc);
    assert Join("x", "") == "x.";
    assert Get(Root(u), "") == Int(i) && Get(Root(v), "") == Int(j);
  }

  /**
   * An empty key below "x" and the key "x." at the root share the path "x.". Whichever is
   * visited last wins, and the visiting order follows the first argument's keys, so the two
   * directions keep different values for that path.
   */
  lemma CollisionExample()
    ensures var a := Obj([Field("x", Obj([Field("", Int(1))])), Field("x.", Int(5))]);
            var b := Obj([Field("x.", Int(6)), Field("x", Obj([Field("", Int(2))]))]);
            DiffObjects([], a, b, "", []) == [DiffEntry("x.", Int(5), Int(6))] &&
            DiffObjects([], b, a, "", []) == [DiffEntry("x.", Int(2), Int(1))]
  {
    var a := Obj([Field("x", Obj([Field("", Int(1))])), Field("x.", Int(5))]);
    var b := Obj([Field("x.", Int(6)), Field("x", Obj([Field("", Int(2))]))]);
    KeysOfTwo("x", a.fields[0].val, "x.", Int(5));
    KeysOfTwo("x.", Int(6), "x", b.fields[1].val);
    assert ["x", "x."] + ["x.", "x"] == ["x", "x.", "x.", "x"];
    assert ["x.", "x"] + ["x", "x."] == ["x.", "x", "x", "x."];
    DedupTwo("x", "x.");
    DedupTwo("x.", "x");
    assert AllKeys(a, b) == ["x", "x."];
    assert AllKeys(b, a) == ["x.", "x"];
    KeysTwo([], a, b, "x", "x.", "", []);
    KeysTwo([], b, a, "x.", "x", "", []);
    DiffKeyCases([], a, b, "x", "", []);
    InnerStep([], 1, 2, []);
    DiffKeyCases([], a, b, "x.", "", [DiffEntry("x.", Int(1), Int(2))]);
    DiffKeyCases([], b, a, "x.", "", []);
    DiffKeyCases([], b, a, "x", "", [DiffEntry("x.", Int(6), Int(5))]);
    InnerStep([], 2, 1, [DiffEntry("x.", Int(6), Int(5))]);
  }

  /** compareObjects on two objects with the single key k, as the loop body decides it. */
  lemma SingleKey(ign: seq<string>, k: string, u: Value, v: Value, path: string, acc: OrderDiff)
    ensures var p := Join(path, k);
            DiffObjects(ign, Obj([Field(k, u)]), Obj([Field(k, v)]), path, acc) ==
              if p in ign || SameValue(u, v) then acc
              else if IsObject(u) && IsObject(v) then DiffObjects(ign, u, v, p, acc)
              else if u.Arr? && v.Arr? && ArraysEqual(u.elems, v.elems) then acc
              else Put(acc, DiffEntry(p, u, v))
  {
    var a := Obj([Field(k, u)]);
    var b := Obj([Field(k, v)]);
    KeysOfOne(k, u);
    KeysOfOne(k, v);
    assert [k] + [k] == [k, k];
    assert Dedup([k, k]) == [k] by {
      assert [k, k][..1] == [k];
      assert [k][..0] == [];
      assert Dedup([k]) == [k];
    }
    assert AllKeys(a, b) == [k];
    KeysOne(ign, a, b, k, path, acc);
    DiffKeyCases(ign, a, b, k, path, acc);
    assert Get(Root(a), k) == u && Get(Root(b), k) == v;
  }

  // Membership of the paths below in the ignore list, one fact per lemma.

  /** Every entry of the ignore list has at least 13 characters ("details.state"). */
  lemma IgnoredEntriesAreLong()
    ensures forall i :: 0 <= i < |HistoryTranslationsIgnored| ==> |HistoryTranslationsIgnored[i]| >= 13
  {
  }

  /** So no path shorter than 13 characters is ever ignored. */
  lemma ShortPathsNotIgnored(p: string)
    requires |p| < 13
    ensures !Ignored(p)
  {
    IgnoredEntriesAreLong();
  }

  lemma StateIgnored()
    ensures Ignored("details.state")
  {
    assert HistoryTranslationsIgnored[6] == "details.state";
  }

  /** {a: [1, 2]} against {a: [2, 1]}: same elements in another order is one change at "a". */
  lemma ReorderedArrayExample()
    ensures Diff(Obj([Field("a", Arr([Int(1), Int(2)]))]), Obj([Field("a", Arr([Int(2), Int(1)]))])) ==
            [DiffEntry("a", Arr([Int(1), Int(2)]), Arr([Int(2), Int(1)]))]
  {
    ShortPathsNotIgnored("a");
    SingleKey(HistoryTranslationsIgnored, "a", Arr([Int(1), Int(2)]), Arr([Int(2), Int(1)]), "", []);
  }

  /** A change of details.state is not reported: that path is on the ignore list. */
  lemma IgnoredStateExample()
    ensures Diff(Obj([Field("details", Obj([Field("state", Str("A"))]))]),
                 Obj([Field("details", Obj([Field("state", Str("B"))]))])) == []
  {
    var ign := HistoryTranslationsIgnored;
    var u, v := Obj([Field("state", Str("A"))]), Obj([Field("state", Str("B"))]);
    ShortPathsNotIgnored("details");
    StateIgnored();
    assert Join("", "details") == "details";
    assert Join("details", "state") == "details.state";
    SingleKey(ign, "state", Str("A"), Str("B"), "details", []);
    assert DiffObjects(ign, u, v, "details", []) == [];
    SingleKey(ign, "details", u, v, "", []);
  }

  lemma TasksNotIgnored()
    ensures "details.tasks" !in HistoryTranslationsIgnored
  {
  }

  lemma CarbonCreditNotIgnored()
    ensures "details.tasks.carbonCredit" !in HistoryTranslationsIgnored
  {
  }

  lemma CarbonStringsNotIgnored()
    ensures "details.tasks.carbonCredit.strings" !in HistoryTranslationsIgnored
  {
  }

  lemma CarbonPrefixNotIgnored()
    ensures "details" !in HistoryTranslationsIgnored && "details.tasks" !in HistoryTranslationsIgnored
    ensures "details.tasks.carbonCredit" !in HistoryTranslationsIgnored
    ensures "details.tasks.carbonCredit.strings" !in HistoryTranslationsIgnored
  {
    ShortPathsNotIgnored("details");
    TasksNotIgnored();
    CarbonCreditNotIgnored();
    CarbonStringsNotIgnored();
  }

  lemma CarbonStringsXNotIgnored()
    ensures "details.tasks.carbonCredit.strings.x" !in HistoryTranslationsIgnored
  {
  }

  lemma CarbonStringsDotIgnored()
    ensures "details.tasks.carbonCredit.strings." in HistoryTranslationsIgnored
  {
    assert HistoryTranslationsIgnored[11] == "details.tasks.carbonCredit.strings.";
  }

  /** {details: {tasks: {carbonCredit: {strings: {k: v}}}}}. */
  function CarbonSnapshot(k: string, v: Value): (r: Value) {
    Obj([Field("details", Obj([Field("tasks", Obj([Field("carbonCredit", Obj([Field("strings", Obj([Field(k, v)]))]))]))]))])
  }

  /**
   * Diffing two snapshots that differ only under details.tasks.carbonCredit.strings: the result
   * is what the key k alone contributes at that path.
   */
  lemma CarbonDescent(ign: seq<string>, k: string, x: Value, y: Value)
    requires "details" !in ign && "details.tasks" !in ign && "details.tasks.carbonCredit" !in ign
    requires "details.tasks.carbonCredit.strings" !in ign
    ensures DiffObjects(ign, CarbonSnapshot(k, x), CarbonSnapshot(k, y), "", []) ==
            DiffObjects(ign, Obj([Field(k, x)]), Obj([Field(k, y)]), "details.tasks.carbonCredit.strings", [])
  {
    var s3, t3 := Obj([Field(k, x)]), Obj([Field(k, y)]);
    var s2, t2 := Obj([Field("strings", s3)]), Obj([Field("strings", t3)]);
    var s1, t1 := Obj([Field("carbonCredit", s2)]), Obj([Field("carbonCredit", t2)]);
    var s0, t0 := Obj([Field("tasks", s1)]), Obj([Field("tasks", t1)]);
    assert Join("", "details") == "details";
    assert Join("details", "tasks") == "details.tasks";
    assert Join("details.tasks", "carbonCredit") == "details.tasks.carbonCredit";
    assert Join("details.tasks.carbonCredit", "strings") == "details.tasks.carbonCredit.strings";
    SingleKey(ign, "details", s0, t0, "", []);
    SingleKey(ign, "tasks", s1, t1, "details", []);
    SingleKey(ign, "carbonCredit", s2, t2, "details.tasks", []);
    SingleKey(ign, "strings", s3, t3, "details.tasks.carbonCredit", []);
  }

  lemma CarbonChangeKept(ign: seq<string>, k: string)
    requires "details" !in ign && "details.tasks" !in ign && "details.tasks.carbonCredit" !in ign
    requires "details.tasks.carbonCredit.strings" !in ign
    requires Join("details.tasks.carbonCredit.strings", k) !in ign
    ensures DiffObjects(ign, CarbonSnapshot(k, Int(1)), CarbonSnapshot(k, Int(2)), "", []) ==
            [DiffEntry(Join("details.tasks.carbonCredit.strings", k), Int(1), Int(2))]
  {
    CarbonDescent(ign, k, Int(1), Int(2));
    SingleKey(ign, k, Int(1), Int(2), "details.tasks.carbonCredit.strings", []);
  }

  lemma CarbonChangeDropped(ign: seq<string>, k: string)
    requires "details" !in ign && "details.tasks" !in ign && "details.tasks.carbonCredit" !in ign
    requires "details.tasks.carbonCredit.strings" !in ign
    requires Join("details.tasks.carbonCredit.strings", k) in ign
    ensures DiffObjects(ign, CarbonSnapshot(k, Int(1)), CarbonSnapshot(k, Int(2)), "", []) == []
  {
    CarbonDescent(ign, k, Int(1), Int(2));
    SingleKey(ign, k, Int(1), Int(2), "details.tasks.carbonCredit.strings", []);
  }

  /**
   * The entry "details.tasks.carbonCredit.strings." does not cover the key x below that object:
   * the change is reported.
   */
  lemma CarbonStringChangeReported()
    ensures Diff(CarbonSnapshot("x", Int(1)), CarbonSnapshot("x", Int(2))) ==
            [DiffEntry("details.tasks.carbonCredit.strings.x", Int(1), Int(2))]
  {
    CarbonPrefixNotIgnored();
    CarbonStringsXNotIgnored();
    assert Join("details.tasks.carbonCredit.strings", "x") == "details.tasks.carbonCredit.strings.x";
    CarbonChangeKept(HistoryTranslationsIgnored, "x");
  }

  /** It only suppresses a change under the empty key, whose path ends in '.'. */
  lemma CarbonEmptyKeyIgnored()
    ensures Diff(CarbonSnapshot("", Int(1)), CarbonSnapshot("", Int(2))) == []
  {
    CarbonPrefixNotIgnored();
    CarbonStringsDotIgnored();
    assert Join("details.tasks.carbonCredit.strings", "") == "details.tasks.carbonCredit.strings.";
    CarbonChangeDropped(HistoryTranslationsIgnored, "");
  }
}
