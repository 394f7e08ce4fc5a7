/**
 * The comparison helpers of utils/helpers.ts: the recursive diff of two order snapshots
 * (`compareObjects`) and the reconciliation of two order lists by reference number
 * (`compareOrders`).
 *
 * The diff accumulator, one JavaScript object that the recursion mutates, is threaded through
 * the calls here as a value: every call receives the entries so far and returns them extended.
 */
module Helpers {
  import opened Json

  /** The dotted paths that are never reported as changed (exact string membership). */
  const HistoryTranslationsIgnored: seq<string> := [
    "details.tasks.registration.orderDetails.vin",
    "details.tasks.registration.regData.orderDetails.vin",
    "details.tasks.finalPayment.data.vin",
    "details.tasks.tradeIn.isMatched",
    "details.tasks.registration.isMatched",
    "details.tasks.registration.orderDetails.vehicleModelYear",
    "details.state",
    "details.strings",
    "details.scheduling.card",
    "details.scheduling.strings",
    "details.tasks.carbonCredit.card",
    "details.tasks.carbonCredit.strings.",
    "details.tasks.finalPayment.card.",
    "details.tasks.finalPayment.strings.",
    "details.tasks.scheduling.card.",
    "details.tasks.scheduling.strings.",
    "details.tasks.scheduling.isDeliveryEstimatesEnabled",
    "details.tasks.registration.orderDetails.isAvailableForMatch",
    "details.tasks.finalPayment.data.isAvailableForMatch",
    "details.tasks.finalPayment.data.deliveryReadinessDetail.",
    "details.tasks.finalPayment.data.deliveryReadiness.",
    "details.tasks.finalPayment.data.agreementDetails",
    "details.tasks.finalPayment.data.vehicleId",
    "details.tasks.deliveryAcceptance.gates",
    "details.tasks.deliveryAcceptance.card.",
    "details.tasks.deliveryAcceptance.strings.",
    "details.tasks.deliveryDetails.regData.reggieRegistrationStatus",
    "details.tasks.deliveryDetails.strings.",
    "details.tasks.deliveryDetails.card.",
    "details.tasks.registration.card.",
    "details.tasks.registration.regData.reggieRegistrationStatus",
    "details.tasks.registration.strings.",
    "details.tasks.finalPayment.complete",
    "details.tasks.finalPayment.data.finalPaymentStatus",
    "details.tasks.scheduling.apptDateTimeAddressStr",
    "details.tasks.scheduling.isInventoryOrMatched",
    "details.tasks.finalPayment.data.hasFinalInvoice",
    "details.tasks.finalPayment.data.hasActiveInvoice",
    "details.tasks.finalPayment.data.selfSchedulingDetails.deliveryLocationId",
    "details.tasks.finalPayment.data.selfSchedulingDetails.",
    "details.tasks.financing.card.",
    "details.tasks.financing.strings.",
    "details.tasks.tradeIn.card.",
    "details.tasks.tradeIn.strings."
  ]

  /**
   * `HISTORY_TRANSLATIONS_IGNORED.includes(path)`: exact membership, no prefix matching.
   * The diff functions below take the list as a parameter `ign`; Diff passes this one.
   */
  predicate Ignored(path: string) {
    path in HistoryTranslationsIgnored
  }

  /** A non-null, non-array object. */
  predicate IsObject(v: Value) {
    v.Obj?
  }

  /** Array equality by serialised text: same length and the same elements in the same order. */
  predicate ArraysEqual(xs: seq<Value>, ys: seq<Value>) {
    |xs| == |ys| && xs == ys
  }

  /** The path of key k below path: just k at the root (empty path), else "path.k". */
  function Join(path: string, k: string): (r: string) {
    if path != "" then path + "." + k else k
  }

  /** The keys of both sides, each once, in first-seen order (`new Set([...ka, ...kb])`). */
  function Union(ka: seq<string>, kb: seq<string>): (r: seq<string>)
    ensures forall k :: k in r <==> k in ka || k in kb
    ensures Distinct(r)
  {
    Dedup(ka + kb)
  }

  predicate Distinct(s: seq<string>) {
    forall i, j :: 0 <= i < j < |s| ==> s[i] != s[j]
  }

  function Dedup(s: seq<string>): (r: seq<string>)
    ensures forall k :: k in r <==> k in s
    ensures Distinct(r)
  {
    if s == [] then []
    else
      var d := Dedup(s[..|s| - 1]);
      assert forall k :: k in s <==> k in s[..|s| - 1] || k == s[|s| - 1];
      if s[|s| - 1] in d then d else d + [s[|s| - 1]]
  }

  /** One recorded change: the value at a dotted path before and after. */
  datatype DiffEntry = DiffEntry(path: string, oldValue: Value, newValue: Value)

  /** An OrderDiff: entries in insertion order, one per path. */
  type OrderDiff = seq<DiffEntry>

  function Paths(d: OrderDiff): (ps: set<string>)
    ensures forall e :: e in d ==> e.path in ps
    ensures forall p :: p in ps ==> exists e :: e in d && e.path == p
  {
    if d == [] then {} else {d[0].path} + Paths(d[1..])
  }

  predicate UniquePaths(d: OrderDiff) {
    forall i, j :: 0 <= i < j < |d| ==> d[i].path != d[j].path
  }

  /**
   * `diffs[e.path] = {old, new}`: replaces the entry for that path where it stands,
   * or appends a new one.
   */
  function Put(d: OrderDiff, e: DiffEntry): (r: OrderDiff) {
    if d == [] then [e]
    else if d[0].path == e.path then [e] + d[1..]
    else [d[0]] + Put(d[1..], e)
  }

  /** Put stores e, keeps every entry at another path, and adds nothing else. */
  lemma {:induction false} PutContents(d: OrderDiff, e: DiffEntry)
    ensures e in Put(d, e)
    ensures forall x :: x in Put(d, e) ==> x == e || x in d
    ensures forall x :: x in d && x.path != e.path ==> x in Put(d, e)
  {
    if d != [] && d[0].path != e.path {
      PutContents(d[1..], e);
      assert forall x :: x in d ==> x == d[0] || x in d[1..];
    }
  }

  lemma PutPaths(d: OrderDiff, e: DiffEntry)
    ensures Paths(Put(d, e)) == Paths(d) + {e.path}
  {
    var r := Put(d, e);
    PutContents(d, e);
    forall p | p in Paths(d) + {e.path} ensures p in Paths(r) {
      if p != e.path {
        var x :| x in d && x.path == p;
        assert x in r;
      }
    }
  }

  // ---------------------------------------------------------------------------------------
  // The reference definition of compareObjects, as functions.
  // DiffObjects(a, b, path, acc) is `compareObjects(a, b, path, acc)`.
  // ---------------------------------------------------------------------------------------

  /** The keys compareObjects walks for the roots a and b. */
  function AllKeys(a: Value, b: Value): (r: seq<string>) {
    Union(Keys(Root(a)), Keys(Root(b)))
  }

  /** The body of the loop of compareObjects for one key. */
  function DiffKey(ign: seq<string>, a: Value, b: Value, k: string, path: string, acc: OrderDiff): (r: OrderDiff)
    decreases a, 0, 0
  {
    var p := Join(path, k);
    var x := Get(Root(a), k);
    var y := Get(Root(b), k);
    if p in ign then acc
    else if SameValue(x, y) then acc
    else if IsObject(x) && IsObject(y) then
      GetObjectIsSmaller(a, k);
      DiffObjects(ign, x, y, p, acc)
    else if x.Arr? && y.Arr? then
      if ArraysEqual(x.elems, y.elems) then acc else Put(acc, DiffEntry(p, x, y))
    else Put(acc, DiffEntry(p, x, y))
  }

  /** The loop of compareObjects over the remaining keys. */
  function DiffKeys(ign: seq<string>, a: Value, b: Value, keys: seq<string>, path: string, acc: OrderDiff): (r: OrderDiff)
    decreases a, 1, |keys|
  {
    if keys == [] then acc
    else DiffKeys(ign, a, b, keys[1..], path, DiffKey(ign, a, b, keys[0], path, acc))
  }

  function DiffObjects(ign: seq<string>, a: Value, b: Value, path: string, acc: OrderDiff): (r: OrderDiff)
    decreases a, 2, 0
  {
    DiffKeys(ign, a, b, AllKeys(a, b), path, acc)
  }

  /** The cases of DiffKey, one per branch of the loop body. */
  lemma DiffKeyCases(ign: seq<string>, a: Value, b: Value, k: string, path: string, acc: OrderDiff)
    ensures var p := Join(path, k);
            var x := Get(Root(a), k);
            var y := Get(Root(b), k);
            DiffKey(ign, a, b, k, path, acc) ==
              if p in ign || SameValue(x, y) then acc
              else if IsObject(x) && IsObject(y) then DiffObjects(ign, x, y, p, acc)
              else if x.Arr? && y.Arr? && ArraysEqual(x.elems, y.elems) then acc
              else Put(acc, DiffEntry(p, x, y))
  {
  }

  lemma DiffKeysUnfold(ign: seq<string>, a: Value, b: Value, keys: seq<string>, i: nat, path: string, acc: OrderDiff)
    requires i < |keys|
    ensures DiffKeys(ign, a, b, keys[i..], path, acc) == DiffKeys(ign, a, b, keys[i + 1..], path, DiffKey(ign, a, b, keys[i], path, acc))
  {
    assert keys[i..][1..] == keys[i + 1..];
  }

  /** `compareObjects(oldObj, newObj)` with the default arguments: the diff from the root. */
  function Diff(oldObj: Value, newObj: Value): (r: OrderDiff) {
    DiffObjects(HistoryTranslationsIgnored, oldObj, newObj, "", [])
  }

  /**
   * compareObjects: walks the union of the keys of both sides, skips ignored and identical
   * values, recurses into pairs of objects and records every other difference.
   */
  method CompareObjects(ignored: seq<string>, oldObj: Value, newObj: Value, path: string, diffs: OrderDiff)
    returns (result: OrderDiff)
    ensures result == DiffObjects(ignored, oldObj, newObj, path, diffs)
    decreases oldObj, 1
  {
    var a := Root(oldObj);
    var b := Root(newObj);
    var allKeys := Union(Keys(a), Keys(b));
    result := diffs;
    var i := 0;
    while i < |allKeys|
      invariant 0 <= i <= |allKeys|
      invariant DiffKeys(ignored, oldObj, newObj, allKeys[i..], path, result) == DiffObjects(ignored, oldObj, newObj, path, diffs)
    {
      DiffKeysUnfold(ignored, oldObj, newObj, allKeys, i, path, result);
      result := CompareKey(ignored, oldObj, newObj, allKeys[i], path, result);
      i := i + 1;
    }
  }

  /** One iteration of the loop of compareObjects, for the key `key`. */
  method CompareKey(ignored: seq<string>, oldObj: Value, newObj: Value, key: string, path: string, diffs: OrderDiff)
    returns (result: OrderDiff)
    ensures result == DiffKey(ignored, oldObj, newObj, key, path, diffs)
    decreases oldObj, 0
  {
    var a := Root(oldObj);
    var b := Root(newObj);
    var currentPath := if path != "" then path + "." + key else key;
    var oldVal := Get(a, key);
    var newVal := Get(b, key);
    DiffKeyCases(ignored, oldObj, newObj, key, path, diffs);
    result := diffs;
    if currentPath in ignored {
    } else if SameValue(oldVal, newVal) {
    } else if IsObject(oldVal) && IsObject(newVal) {
      GetObjectIsSmaller(oldObj, key);
      result := CompareObjects(ignored, oldVal, newVal, currentPath, result);
    } else if oldVal.Arr? && newVal.Arr? {
      if !ArraysEqual(oldVal.elems, newVal.elems) {
        result := Put(result, DiffEntry(currentPath, oldVal, newVal));
      }
    } else {
      result := Put(result, DiffEntry(currentPath, oldVal, newVal));
    }
  }

  // ---------------------------------------------------------------------------------------
  // compareOrders
  // ---------------------------------------------------------------------------------------

  /** `o.order.referenceNumber`, which the CombinedOrder type declares to be a string. */
  function RefValue(o: Value): (r: Value) {
    Get(Get(o, "order"), "referenceNumber")
  }

  /** What the CombinedOrder type guarantees of every order in a list. */
  predicate AllHaveRef(orders: seq<Value>) {
    forall i :: 0 <= i < |orders| ==> RefValue(orders[i]).Str?
  }

  /** The reference number of an order (the empty string if it has none). */
  function Ref(o: Value): (r: string) {
    if RefValue(o).Str? then RefValue(o).s else ""
  }

  // The reconciliation is stated for any key function and any diff function; compareOrders
  // uses Ref and Diff. Keeping them abstract keeps the proofs about lists small.

  /** `new Map(orders.map(o => [key(o), o]))`: later orders overwrite earlier ones. */
  function IndexBy(orders: seq<Value>, key: Value -> string): (r: map<string, Value>) {
    if orders == [] then map[]
    else
      var last := orders[|orders| - 1];
      IndexBy(orders[..|orders| - 1], key)[key(last) := last]
  }

  /** The position of the last order whose key is rn, or -1. */
  function LastWithKey(orders: seq<Value>, key: Value -> string, rn: string): (i: int)
    ensures -1 <= i < |orders|
    ensures 0 <= i ==> key(orders[i]) == rn
    ensures forall j :: i < j < |orders| ==> key(orders[j]) != rn
  {
    if orders == [] then -1
    else if key(orders[|orders| - 1]) == rn then |orders| - 1
    else LastWithKey(orders[..|orders| - 1], key, rn)
  }

  /** The index holds a key iff some order has it, and then it holds the LAST such order. */
  lemma {:induction false} IndexByLastWins(orders: seq<Value>, key: Value -> string, rn: string)
    ensures rn in IndexBy(orders, key) <==> LastWithKey(orders, key, rn) >= 0
    ensures rn in IndexBy(orders, key) ==> IndexBy(orders, key)[rn] == orders[LastWithKey(orders, key, rn)]
  {
    if orders != [] {
      var init := orders[..|orders| - 1];
      IndexByLastWins(init, key, rn);
      if key(orders[|orders| - 1]) != rn && LastWithKey(init, key, rn) >= 0 {
        assert init[LastWithKey(init, key, rn)] == orders[LastWithKey(init, key, rn)];
      }
    }
  }

  /**
   * The loop of compareOrders over the old orders `olds`: each old order with a match in the
   * index and a non-empty diff writes that diff under its key.
   */
  function ReconcileWith(olds: seq<Value>, index: map<string, Value>, key: Value -> string,
                         diff: (Value, Value) -> OrderDiff): (r: map<string, OrderDiff>)
  {
    if olds == [] then map[]
    else
      var prev := ReconcileWith(olds[..|olds| - 1], index, key, diff);
      var o := olds[|olds| - 1];
      var rn := key(o);
      if rn in index && diff(o, index[rn]) != [] then prev[rn := diff(o, index[rn])] else prev
  }

  /** The position of the last old order with key rn whose diff against index[rn] is non-empty, or -1. */
  function LastChanged(olds: seq<Value>, index: map<string, Value>, key: Value -> string,
                       diff: (Value, Value) -> OrderDiff, rn: string): (i: int)
    requires rn in index
    ensures -1 <= i < |olds|
    ensures 0 <= i ==> key(olds[i]) == rn && diff(olds[i], index[rn]) != []
    ensures forall j :: i < j < |olds| && key(olds[j]) == rn ==> diff(olds[j], index[rn]) == []
  {
    if olds == [] then -1
    else
      var o := olds[|olds| - 1];
      if key(o) == rn && diff(o, index[rn]) != [] then |olds| - 1
      else LastChanged(olds[..|olds| - 1], index, key, diff, rn)
  }

  /**
   * A key has an entry iff it is in the index and some old order carrying it has a non-empty
   * diff; the entry is the diff of the last such old order.
   */
  lemma {:induction false} ReconcileEntries(olds: seq<Value>, index: map<string, Value>,
                                            key: Value -> string, diff: (Value, Value) -> OrderDiff, rn: string)
    ensures rn in ReconcileWith(olds, index, key, diff) <==>
      rn in index && LastChanged(olds, index, key, diff, rn) >= 0
    ensures rn in ReconcileWith(olds, index, key, diff) ==>
      ReconcileWith(olds, index, key, diff)[rn] == diff(olds[LastChanged(olds, index, key, diff, rn)], index[rn])
  {
    if olds != [] {
      var init := olds[..|olds| - 1];
      ReconcileEntries(init, index, key, diff, rn);
      if rn in index {
        var i := LastChanged(init, index, key, diff, rn);
        if i >= 0 { assert init[i] == olds[i]; }
      }
    }
  }

  /** One step of the loop of compareOrders. */
  lemma ReconcileStep(olds: seq<Value>, i: nat, index: map<string, Value>, key: Value -> string,
                      diff: (Value, Value) -> OrderDiff)
    requires i < |olds|
    ensures ReconcileWith(olds[..i + 1], index, key, diff) ==
      var prev := ReconcileWith(olds[..i], index, key, diff);
      var rn := key(olds[i]);
      if rn in index && diff(olds[i], index[rn]) != [] then prev[rn := diff(olds[i], index[rn])] else prev
  {
    assert olds[..i + 1][..i] == olds[..i];
  }

  /** The map compareOrders returns. */
  function OrdersDiff(oldOrders: seq<Value>, newOrders: seq<Value>): (r: map<string, OrderDiff>) {
    ReconcileWith(oldOrders, IndexBy(newOrders, Ref), Ref, Diff)
  }

  /**
   * compareOrders: for each old order whose reference number is also among the new orders,
   * records its non-empty diff under that reference number.
   */
  method CompareOrders(oldOrders: seq<Value>, newOrders: seq<Value>)
    returns (allDiffs: map<string, OrderDiff>)
    requires AllHaveRef(oldOrders) && AllHaveRef(newOrders)
    ensures allDiffs == OrdersDiff(oldOrders, newOrders)
  {
    allDiffs := map[];
    var newOrdersMap := IndexBy(newOrders, Ref);
    var i := 0;
    while i < |oldOrders|
      invariant 0 <= i <= |oldOrders|
      invariant allDiffs == ReconcileWith(oldOrders[..i], newOrdersMap, Ref, Diff)
    {
      var oldOrder := oldOrders[i];
      var rn := Ref(oldOrder);
      ReconcileStep(oldOrders, i, newOrdersMap, Ref, Diff);
      if rn in newOrdersMap {
        var newOrder := newOrdersMap[rn];
        var orderDiffs := CompareObjects(HistoryTranslationsIgnored, oldOrder, newOrder, "", []);
        assert orderDiffs == Diff(oldOrder, newOrder);
        if |orderDiffs| > 0 {
          allDiffs := allDiffs[rn := orderDiffs];
        }
      }
      i := i + 1;
    }
    assert oldOrders[..|oldOrders|] == oldOrders;
  }

  /**
   * What compareOrders returns, in terms of the two lists: rn has an entry iff some new order
   * carries rn (the last one is the one compared) and some old order carrying rn has a
   * non-empty diff against it; the entry is the diff of the last such old order.
   */
  lemma CompareOrdersEntries(oldOrders: seq<Value>, newOrders: seq<Value>, rn: string)
    ensures rn in OrdersDiff(oldOrders, newOrders) <==>
              LastWithKey(newOrders, Ref, rn) >= 0 &&
              exists i :: 0 <= i < |oldOrders| && Ref(oldOrders[i]) == rn &&
                          Diff(oldOrders[i], newOrders[LastWithKey(newOrders, Ref, rn)]) != []
    ensures rn in OrdersDiff(oldOrders, newOrders) ==> OrdersDiff(oldOrders, newOrders)[rn] != []
    ensures rn in OrdersDiff(oldOrders, newOrders) ==>
              exists i :: 0 <= i < |oldOrders| && Ref(oldOrders[i]) == rn &&
                          OrdersDiff(oldOrders, newOrders)[rn] == Diff(oldOrders[i], newOrders[LastWithKey(newOrders, Ref, rn)]) &&
                          forall i' :: i < i' < |oldOrders| && Ref(oldOrders[i']) == rn ==>
                                       Diff(oldOrders[i'], newOrders[LastWithKey(newOrders, Ref, rn)]) == []
  {
    var index := IndexBy(newOrders, Ref);
    IndexByLastWins(newOrders, Ref, rn);
    ReconcileEntries(oldOrders, index, Ref, Diff, rn);
    if rn in index {
      var i := LastChanged(oldOrders, index, Ref, Diff, rn);
      if i >= 0 {
        assert Ref(oldOrders[i]) == rn && Diff(oldOrders[i], index[rn]) != [];
      }
    }
  }
}
