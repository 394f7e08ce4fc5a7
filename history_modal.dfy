/**
 * The change log of components/HistoryModal.tsx: the stored snapshots of one order (oldest
 * first) are read newest first; the oldest becomes the baseline entry, every other snapshot
 * is diffed against the one before it, and a snapshot whose diff is empty gets no entry.
 * Each change is drawn with a label and the old and new values as text.
 */
module HistoryModal {
  import opened Json
  import opened Helpers
  import DiffProperties

  /** One stored snapshot: when it was taken and the combined order as it was then. */
  datatype Snapshot = Snapshot(timestamp: string, data: Value)

  /**
   * How a value is drawn. Arrays and objects are shown as their JSON text (`JSON.stringify`,
   * indented when it is longer than 75 characters), which this model leaves as the value itself.
   */
  datatype Shown = Plain(text: string) | JsonText(value: Value)

  /** formatValue. */
  function FormatValue(v: Value): (r: Shown) {
    match v
    case Undefined => Plain("N/A")
    case Null => Plain("N/A")
    case Arr(_) => JsonText(v)
    case Obj(_) => JsonText(v)
    case Str(s) => if s == "" then Plain("\"\" (empty string)") else Plain(s)
    case Bool(b) => Plain(if b then "True" else "False")
    case Int(i) => Plain(IntToString(i))
  }

  /**
   * Every value is drawn as something visible: missing values as "N/A", the empty string
   * spelled out, booleans as True/False, and only arrays and objects as JSON text.
   */
  lemma FormatValueShape(v: Value)
    ensures FormatValue(v) == Plain("N/A") <==> v.Undefined? || v.Null? || v == Str("N/A")
    ensures FormatValue(v).JsonText? <==> v.Arr? || v.Obj?
    ensures FormatValue(v).Plain? ==> FormatValue(v).text != ""
    ensures v.Bool? ==> FormatValue(v) == Plain(if v.b then "True" else "False")
    ensures v == Str("") ==> FormatValue(v) == Plain("\"\" (empty string)")
  {
  }

  /** `DIFF_KEY_LABELS[key] || key`: the label when there is a non-empty one, else the key. */
  function GetLabel(labels: map<string, string>, key: string): (r: string) {
    if key in labels && labels[key] != "" then labels[key] else key
  }

  lemma GetLabelShape(labels: map<string, string>, key: string)
    ensures key in labels && labels[key] != "" ==> GetLabel(labels, key) == labels[key]
    ensures key !in labels || labels[key] == "" ==> GetLabel(labels, key) == key
    ensures key != "" ==> GetLabel(labels, key) != ""
  {
  }

  /** One line of a change entry: the path (the line's key), its label, the old and new value. */
  datatype ChangeLine = ChangeLine(key: string, labelText: string, from: Shown, to: Shown)

  datatype LogEntry =
    | Baseline(timestamp: string)
    | Changes(timestamp: string, lines: seq<ChangeLine>)

  /** `Object.entries(diffs).map(...)`: one line per diff entry, in the diff's order. */
  function Lines(d: OrderDiff, labels: map<string, string>): (r: seq<ChangeLine>)
    ensures |r| == |d|
    ensures forall j :: 0 <= j < |d| ==>
      r[j] == ChangeLine(d[j].path, GetLabel(labels, d[j].path), FormatValue(d[j].oldValue), FormatValue(d[j].newValue))
  {
    seq(|d|, j requires 0 <= j < |d| =>
      ChangeLine(d[j].path, GetLabel(labels, d[j].path), FormatValue(d[j].oldValue), FormatValue(d[j].newValue)))
  }

  /** `[...history].reverse()`. */
  function Reverse<T>(s: seq<T>): (r: seq<T>)
    ensures |r| == |s| && forall i :: 0 <= i < |s| ==> r[i] == s[|s| - 1 - i]
  {
    if s == [] then [] else Reverse(s[1..]) + [s[0]]
  }

  /**
   * What the snapshot at position i of the newest-first list draws: the baseline when it has no
   * successor in that list (it is the oldest), nothing when its diff against that successor is
   * empty, and the changes otherwise. The log functions take the diff as a parameter; the
   * component's log is the instance with compareObjects, `Diff`.
   */
  function EntryAt(diff: (Value, Value) -> OrderDiff, reversed: seq<Snapshot>, i: nat, labels: map<string, string>): (r: seq<LogEntry>)
    requires i < |reversed|
  {
    var snapshot := reversed[i];
    if i + 1 == |reversed| then [Baseline(snapshot.timestamp)]
    else
      var previous := reversed[i + 1];
      var diffs := diff(previous.data, snapshot.data);
      if |diffs| == 0 then [] else [Changes(snapshot.timestamp, Lines(diffs, labels))]
  }

  function LogFrom(diff: (Value, Value) -> OrderDiff, reversed: seq<Snapshot>, i: nat, labels: map<string, string>): (r: seq<LogEntry>)
    requires i <= |reversed|
    decreases |reversed| - i
  {
    if i == |reversed| then [] else EntryAt(diff, reversed, i, labels) + LogFrom(diff, reversed, i + 1, labels)
  }

  /** The drawn entries, newest first, for a given diff. */
  function LogWith(diff: (Value, Value) -> OrderDiff, history: seq<Snapshot>, labels: map<string, string>): (r: seq<LogEntry>) {
    if |history| == 0 then [] else LogFrom(diff, Reverse(history), 0, labels)
  }

  /** renderHistoryLog. */
  function ChangeLog(history: seq<Snapshot>, labels: map<string, string>): (r: seq<LogEntry>) {
    LogWith(Diff, history, labels)
  }

  // ---------------------------------------------------------------------------------------
  // The log, read against the stored (oldest-first) history.
  // ---------------------------------------------------------------------------------------

  /** What a snapshot after the first contributes: its changes against its predecessor, if any. */
  function EntryWith(diff: (Value, Value) -> OrderDiff, previous: Snapshot, snapshot: Snapshot, labels: map<string, string>): (r: seq<LogEntry>) {
    var diffs := diff(previous.data, snapshot.data);
    if diffs == [] then [] else [Changes(snapshot.timestamp, Lines(diffs, labels))]
  }

  lemma {:induction false} LogShift(diff: (Value, Value) -> OrderDiff, s: Snapshot, r: seq<Snapshot>, i: nat, labels: map<string, string>)
    requires i <= |r|
    ensures LogFrom(diff, [s] + r, i + 1, labels) == LogFrom(diff, r, i, labels)
    decreases |r| - i
  {
    if i < |r| {
      LogShift(diff, s, r, i + 1, labels);
      EntryShift(diff, s, r, i, labels);
    }
  }

  lemma EntryShift(diff: (Value, Value) -> OrderDiff, s: Snapshot, r: seq<Snapshot>, i: nat, labels: map<string, string>)
    requires i < |r|
    ensures EntryAt(diff, [s] + r, i + 1, labels) == EntryAt(diff, r, i, labels)
  {
    assert ([s] + r)[i + 1] == r[i];
    if i + 1 < |r| {
      assert ([s] + r)[i + 2] == r[i + 1];
    }
  }

  lemma ReverseSnoc<T>(h: seq<T>, s: T)
    ensures Reverse(h + [s]) == [s] + Reverse(h)
  {
  }

  /**
   * A newer snapshot puts its entry, if any, in front of the log of the older ones, which it
   * leaves as it was: the log is newest first and each entry depends only on the snapshot and
   * its predecessor.
   */
  lemma LogSnoc(diff: (Value, Value) -> OrderDiff, h: seq<Snapshot>, s: Snapshot, labels: map<string, string>)
    requires |h| > 0
    ensures LogWith(diff, h + [s], labels) == EntryWith(diff, h[|h| - 1], s, labels) + LogWith(diff, h, labels)
  {
    var r := Reverse(h);
    ReverseSnoc(h, s);
    assert Reverse(h + [s]) == [s] + r;
    assert ([s] + r)[1] == h[|h| - 1];
    LogShift(diff, s, r, 0, labels);
  }

  /** An empty history draws nothing; a single snapshot draws exactly the baseline. */
  lemma ShortLogs(diff: (Value, Value) -> OrderDiff, s: Snapshot, labels: map<string, string>)
    ensures LogWith(diff, [], labels) == []
    ensures LogWith(diff, [s], labels) == [Baseline(s.timestamp)]
  {
    assert Reverse([s]) == [s];
    assert LogFrom(diff, [s], 1, labels) == [];
  }

  /** The number of snapshots after the first whose diff against their predecessor is not empty. */
  function ChangedCount(diff: (Value, Value) -> OrderDiff, h: seq<Snapshot>): (r: nat) {
    if |h| <= 1 then 0
    else ChangedCount(diff, h[..|h| - 1]) + (if diff(h[|h| - 2].data, h[|h| - 1].data) == [] then 0 else 1)
  }

  /** The log of a non-empty history has one entry per changed snapshot, plus the baseline. */
  lemma {:induction false} LogLength(diff: (Value, Value) -> OrderDiff, h: seq<Snapshot>, labels: map<string, string>)
    requires |h| > 0
    ensures |LogWith(diff, h, labels)| == 1 + ChangedCount(diff, h)
  {
    if |h| == 1 {
      ShortLogs(diff, h[0], labels);
    } else {
      var h', s := h[..|h| - 1], h[|h| - 1];
      assert h == h' + [s];
      LogLength(diff, h', labels);
      LogSnoc(diff, h', s, labels);
      EntryShape(diff, h'[|h'| - 1], s, labels);
      assert h[|h| - 2] == h'[|h'| - 1];
    }
  }

  /** Its last entry is the baseline, with the oldest snapshot's timestamp. */
  lemma {:induction false} LogEndsWithBaseline(diff: (Value, Value) -> OrderDiff, h: seq<Snapshot>, labels: map<string, string>)
    requires |h| > 0
    ensures |LogWith(diff, h, labels)| > 0
    ensures LogWith(diff, h, labels)[|LogWith(diff, h, labels)| - 1] == Baseline(h[0].timestamp)
  {
    if |h| == 1 {
      ShortLogs(diff, h[0], labels);
    } else {
      var h', s := h[..|h| - 1], h[|h| - 1];
      assert h == h' + [s];
      LogEndsWithBaseline(diff, h', labels);
      LogSnoc(diff, h', s, labels);
      assert h'[0] == h[0];
    }
  }

  /** Every entry before the last shows at least one change. */
  lemma {:induction false} LogChangesBefore(diff: (Value, Value) -> OrderDiff, h: seq<Snapshot>, labels: map<string, string>)
    requires |h| > 0
    ensures var log := LogWith(diff, h, labels);
      forall j :: 0 <= j < |log| - 1 ==> log[j].Changes? && |log[j].lines| > 0
  {
    if |h| == 1 {
      ShortLogs(diff, h[0], labels);
    } else {
      var h', s := h[..|h| - 1], h[|h| - 1];
      assert h == h' + [s];
      LogChangesBefore(diff, h', labels);
      LogEndsWithBaseline(diff, h', labels);
      LogSnoc(diff, h', s, labels);
      var e, log' := EntryWith(diff, h'[|h'| - 1], s, labels), LogWith(diff, h', labels);
      EntryShape(diff, h'[|h'| - 1], s, labels);
      if e != [] {
        assert LogWith(diff, h, labels) == [e[0]] + log';
      }
    }
  }

  /** A snapshot's entry is empty when its diff is, and otherwise one entry with at least one line. */
  lemma EntryShape(diff: (Value, Value) -> OrderDiff, previous: Snapshot, snapshot: Snapshot, labels: map<string, string>)
    ensures var e := EntryWith(diff, previous, snapshot, labels);
      |e| == (if diff(previous.data, snapshot.data) == [] then 0 else 1) &&
      (|e| == 1 ==> e[0].Changes? && |e[0].lines| > 0)
  {
  }

  /**
   * The entry for the stored snapshot k >= 1, if it has one, compares it with snapshot k - 1,
   * its chronological predecessor: the log of h ends with that entry followed by the log of
   * the first k snapshots.
   */
  lemma {:induction false} PredecessorEntry(diff: (Value, Value) -> OrderDiff, h: seq<Snapshot>, k: nat, labels: map<string, string>)
    requires 1 <= k < |h|
    ensures var log, tail := LogWith(diff, h, labels), EntryWith(diff, h[k - 1], h[k], labels) + LogWith(diff, h[..k], labels);
      |tail| <= |log| && log[|log| - |tail|..] == tail
    decreases |h|
  {
    var h', s := h[..|h| - 1], h[|h| - 1];
    assert h == h' + [s];
    LogSnoc(diff, h', s, labels);
    if k < |h| - 1 {
      PredecessorEntry(diff, h', k, labels);
      assert h'[k - 1] == h[k - 1] && h'[k] == h[k] && h'[..k] == h[..k];
    } else {
      assert h[..k] == h';
    }
  }

  // ---------------------------------------------------------------------------------------
  // The component's log.
  // ---------------------------------------------------------------------------------------

  /** What a snapshot after the first contributes to the component's log. */
  function ChangeEntry(previous: Snapshot, snapshot: Snapshot, labels: map<string, string>): (r: seq<LogEntry>) {
    EntryWith(Diff, previous, snapshot, labels)
  }

  lemma ChangeLogSnoc(h: seq<Snapshot>, s: Snapshot, labels: map<string, string>)
    requires |h| > 0
    ensures ChangeLog(h + [s], labels) == ChangeEntry(h[|h| - 1], s, labels) + ChangeLog(h, labels)
  {
    LogSnoc(Diff, h, s, labels);
  }

  lemma ShortHistories(s: Snapshot, labels: map<string, string>)
    ensures ChangeLog([], labels) == []
    ensures ChangeLog([s], labels) == [Baseline(s.timestamp)]
  {
    ShortLogs(Diff, s, labels);
  }

  /** A snapshot identical to its predecessor adds no entry. */
  lemma UnchangedSnapshotAddsNothing(h: seq<Snapshot>, s: Snapshot, labels: map<string, string>)
    requires |h| > 0 && s.data == h[|h| - 1].data
    ensures ChangeLog(h + [s], labels) == ChangeLog(h, labels)
  {
    DiffProperties.DiffSelfEmpty(s.data);
    ChangeLogSnoc(h, s, labels);
  }

  /**
   * A changed snapshot adds one entry in front, with its own timestamp and one line per
   * changed path, the old value before the new; no line is for an ignored path, and no path
   * has two lines.
   */
  lemma ChangedSnapshotEntry(h: seq<Snapshot>, s: Snapshot, labels: map<string, string>)
    requires |h| > 0 && Diff(h[|h| - 1].data, s.data) != []
    ensures var d, log := Diff(h[|h| - 1].data, s.data), ChangeLog(h + [s], labels);
      log[0] == Changes(s.timestamp, Lines(d, labels)) && log[1..] == ChangeLog(h, labels) &&
      (forall j :: 0 <= j < |d| ==> log[0].lines[j].from == FormatValue(d[j].oldValue) && log[0].lines[j].to == FormatValue(d[j].newValue)) &&
      (forall j :: 0 <= j < |d| ==> !Ignored(log[0].lines[j].key)) &&
      (forall j, k :: 0 <= j < k < |d| ==> log[0].lines[j].key != log[0].lines[k].key)
  {
    var d := Diff(h[|h| - 1].data, s.data);
    ChangeLogSnoc(h, s, labels);
    DiffProperties.DiffNeverIgnored(h[|h| - 1].data, s.data);
    DiffProperties.DiffUniquePaths(h[|h| - 1].data, s.data);
    assert forall j :: 0 <= j < |d| ==> d[j] in d;
  }

  /**
   * Three snapshots where the second repeats the first and the third changes something: the
   * log has two entries, the third snapshot's changes and then the baseline.
   */
  lemma RepeatedSnapshotSkipped(s1: Snapshot, s2: Snapshot, s3: Snapshot, labels: map<string, string>)
    requires s2.data == s1.data && Diff(s2.data, s3.data) != []
    ensures ChangeLog([s1, s2, s3], labels) ==
      [Changes(s3.timestamp, Lines(Diff(s2.data, s3.data), labels)), Baseline(s1.timestamp)]
  {
    ShortHistories(s1, labels);
    UnchangedSnapshotAddsNothing([s1], s2, labels);
    assert [s1] + [s2] == [s1, s2];
    ChangeLogSnoc([s1, s2], s3, labels);
    assert [s1, s2] + [s3] == [s1, s2, s3];
  }
}
