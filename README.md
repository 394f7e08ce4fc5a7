# Order tracker core, modelled in Dafny

This project models the logic at the core of a dashboard that follows vehicle orders. The
dashboard keeps, per order, a history of the combined order data it has fetched. It also:

- diffs two snapshots of an order, skipping a fixed list of noisy paths (`compareObjects`);
- reconciles two lists of orders by reference number (`compareOrders`);
- encodes PKCE bytes as unpadded URL-safe base64 (`base64urlencode`);
- derives a five-stage delivery timeline from one order, with the current stage and a date
  for each complete stage;
- renders the change log of an order's history, newest first, with a baseline entry for the
  oldest snapshot;
- keeps a delivery checklist of ticked items, with a count per section.

Modules, one per source concern:

- `Json`: the JSON values the dashboard handles, with JavaScript truthiness, `Object.is`,
  `Object.keys`, property access and `v || {}`.
- `Helpers` (utils/helpers.ts): the ignore list and the diff. The diff is given as reference
  functions (`DiffObjects`, `DiffKeys`, `DiffKey`) and as the imperative `CompareObjects` loop
  proved equal to them. It also holds the order reconciliation `CompareOrders`.
- `DiffProperties`, `DiffValues`, `DiffExamples`: what the diff computes, stated against an
  independent per-path definition of a change (`IsChange`). Covers soundness, completeness,
  symmetry, self-diff, unique paths and ignored paths, with worked instances.
- `Base64Url` (utils/helpers.ts): `btoa`, the two `replace` calls and the padding strip. Also
  proves that the result is unpadded base64url (RFC 4648, section 5) and that a decoder
  inverts it.
- `DatePattern`: the regular expression `\b[A-Za-z]+ \d{1,2}, \d{4}\b` as a leftmost-match
  search, proved against a declarative shape.
- `OrderTimeline` (components/OrderTimeline.tsx): the stage predicates and date extractors,
  the backward scan as a method, and the drawn flags. The TypeErrors the component can throw
  are modelled as `Err`.
- `HistoryModal` (components/HistoryModal.tsx): `formatValue`, `getLabel` and the log
  traversal.
- `DeliveryChecklist` (components/DeliveryChecklist.tsx): the toggle, the count and the
  initial state.

Behaviour of the code that the model keeps as written:

- **Ignore-list matching.** Ignore entries ending in `.` look like subtree prefixes, but
  `includes` tests exact membership. Such an entry suppresses only the single path that ends
  in `.`: the path of an empty key, or of a key that itself ends in `.`.
  `DiffExamples.CarbonStringChangeReported` and `DiffExamples.CarbonEmptyKeyIgnored` show
  both sides. `DiffValues.ObjectsDotted` shows that on keys that are non-empty and free of
  `.` those entries have no effect at all.
- **Snapshot timestamps** are opaque strings: the component only formats them.
- **Thrown errors.** The stage predicates and date extractors read fields without guards
  (components/OrderTimeline.tsx:18, 25, 44, 52, 56). The TypeErrors they can throw, such as
  lower-casing a status that is not a string, are modelled as `Err`, and the timeline fails
  with them.
- **Ready date fallback.** When the appointment text holds no date, the ready stage shows the
  whole appointment text (components/OrderTimeline.tsx:44-45). The delivered stage then
  shows no date (components/OrderTimeline.tsx:56-57).

## Model

| member | source | states |
|---|---|---|
| Json.Root | utils/helpers.ts:116-117 | a truthy root is used as it is; a falsy one (undefined, null, false, 0, "") is replaced by an object with the same, empty, key list |
| Helpers.CompareObjects | utils/helpers.ts:115-147 | the loop over the union of both sides' keys returns exactly the reference diff DiffObjects of the two snapshots, extending the accumulator it was given |
| Helpers.CompareKey | utils/helpers.ts:121-145 | one loop iteration: an ignored path or an `Object.is` pair adds nothing, two objects recurse, two equal arrays add nothing, anything else records old and new at the current path |
| Helpers.Union | utils/helpers.ts:119 | the key set holds each key of either side exactly once |
| Helpers.PutContents | utils/helpers.ts:138-143 | writing a path stores the new entry, keeps every entry at another path and adds nothing else |
| Helpers.IndexByLastWins | utils/helpers.ts:151 | the reference-number map holds a number iff some new order carries it, and then maps it to the last such order |
| Helpers.ReconcileEntries | utils/helpers.ts:153-162 | a key gets an entry iff it is in the index and some old order with that key has a non-empty diff; the entry is the diff of the last such old order |
| Helpers.CompareOrders | utils/helpers.ts:149-164 | the loop over the old orders returns the reconciliation of the old list against the index of the new list |
| Helpers.CompareOrdersEntries | utils/helpers.ts:149-164 | in terms of the two lists: a reference number has an entry iff a new order carries it and some old order with it differs from the last such new order; entries are never empty and hold the last differing old order's diff |
| DiffProperties.ObjectsSound | utils/helpers.ts:115-147 | every entry of a diff was in the accumulator or is a genuine change: a chain of differing, non-ignored keys through pairs of objects ending in a recorded difference |
| DiffProperties.ObjectsComplete | utils/helpers.ts:115-147 | every such change is reported at its dotted path |
| DiffProperties.IsChangeSwap | utils/helpers.ts:116-144 | a change from a to b is a change from b to a with old and new swapped |
| DiffProperties.PathsSymmetric | utils/helpers.ts:115-147 | diffing a against b and b against a reports the same set of paths |
| DiffProperties.ObjectsSelf | utils/helpers.ts:130-132 | diffing a value against itself adds nothing to the accumulator |
| DiffProperties.ObjectsUnique | utils/helpers.ts:138-143 | a diff never holds two entries for one path |
| DiffProperties.DiffAvoidsIgnored | utils/helpers.ts:126-128 | no reported path is on the ignore list, nor is any path on the way down to it |
| DiffProperties.DiffSelfEmpty | utils/helpers.ts:115-147 | an unchanged snapshot has an empty diff under the dashboard's ignore list |
| DiffProperties.DiffPathsSymmetric | utils/helpers.ts:115-147 | with the dashboard's ignore list, both directions report the same paths |
| DiffProperties.DiffUniquePaths | utils/helpers.ts:115-147 | with the dashboard's ignore list, paths are unique |
| DiffProperties.DiffNeverIgnored | utils/helpers.ts:4-49 | no path on HISTORY_TRANSLATIONS_IGNORED is ever reported |
| DiffValues.DiffValuesSymmetric | utils/helpers.ts:115-147 | when no key is empty or contains '.', every entry of diff(a, b) appears in diff(b, a) with old and new swapped |
| DiffValues.ObjectsDotted | utils/helpers.ts:126 | on such keys, the ignore entries that end in '.' change nothing: the diff equals the diff without them |
| DiffValues.IsChangeFunctional | utils/helpers.ts:121-145 | a chain of keys determines the old and new values of the change it reaches |
| DiffValues.PathFromInjective | utils/helpers.ts:122 | on such keys, distinct chains of keys give distinct dotted paths |
| DiffExamples.SingleKey | utils/helpers.ts:121-145 | on one-key objects the diff takes exactly the branch of the loop body for that key |
| DiffExamples.CollisionExample | utils/helpers.ts:122 | an empty key below "x" and a key "x." collide at one path, and the two directions then keep different values there |
| DiffExamples.ReorderedArrayExample | utils/helpers.ts:106-113 | arrays with the same elements in another order are one change |
| DiffExamples.IgnoredStateExample | utils/helpers.ts:11 | a change of details.state is not reported |
| DiffExamples.CarbonStringChangeReported | utils/helpers.ts:16 | the entry "details.tasks.carbonCredit.strings." does not suppress a change of the key x below that object |
| DiffExamples.CarbonEmptyKeyIgnored | utils/helpers.ts:16 | that entry suppresses only a change under the empty key |
| DiffExamples.ShortPathsNotIgnored | utils/helpers.ts:4-49 | no path shorter than 13 characters is on the ignore list |
| Base64Url.BodyLength | utils/helpers.ts:54 | the unpadded body of n bytes has (4n + 2) / 3 characters |
| Base64Url.StripShape | utils/helpers.ts:57 | stripping `=+$` leaves a prefix that does not end in '=' and removes only '=' |
| Base64Url.ToUrlAlphabet | utils/helpers.ts:55-56 | every '+' becomes '-', every '/' becomes '_', every other character stays, and the length is kept |
| Base64Url.EncodeIsUnpaddedUrlBase64 | utils/helpers.ts:53-58 | the encoding is the unpadded base64url body of the bytes |
| Base64Url.EncodeShape | utils/helpers.ts:53-58 | the encoding uses only URL-safe characters and has (4n + 2) / 3 of them |
| Base64Url.VerifierLength | utils/helpers.ts:61-63 | a 32-byte verifier encodes to 43 characters |
| Base64Url.RoundTrip | utils/helpers.ts:53-58 | decoding the encoding yields the original bytes |
| DatePattern.LetterEnd | components/OrderTimeline.tsx:44 | the greedy letter run from i ends at the first non-letter |
| DatePattern.MatchAtSound | components/OrderTimeline.tsx:44 | a match found at i has the pattern's shape |
| DatePattern.MatchAtComplete | components/OrderTimeline.tsx:44 | every occurrence of the shape at i is the match found at i |
| DatePattern.FirstMatchFrom | components/OrderTimeline.tsx:44 | the match returned is at the leftmost start that matches; none is returned only when no start matches |
| DatePattern.FirstDateLeftmost | components/OrderTimeline.tsx:44 | the date found is the leftmost occurrence of the shape; none is found exactly when the shape occurs nowhere |
| DatePattern.DateAtStart | components/OrderTimeline.tsx:44-45 | a text that starts with a date yields that date |
| DatePattern.ExampleAppointment | components/OrderTimeline.tsx:44-45 | "June 3, 2025, 10:00 AM" yields "June 3, 2025" |
| OrderTimeline.Lower | components/OrderTimeline.tsx:18 | lower-casing keeps the length and lower-cases each ASCII letter in place |
| OrderTimeline.PlacedRule | components/OrderTimeline.tsx:18 | Placed is complete iff a booked date is present or the lower-cased status includes "book"; it throws only without a booked date and without a string status |
| OrderTimeline.FieldRules | components/OrderTimeline.tsx:25-39 | VIN, transit and ready are complete iff their own field is truthy; only the VIN stage can throw |
| OrderTimeline.DeliveredRule | components/OrderTimeline.tsx:52 | Delivered is complete iff the lower-cased status includes "delivered"; it throws iff the status cannot be lower-cased |
| OrderTimeline.Statuses | components/OrderTimeline.tsx:64 | the flags are computed iff no predicate throws, one per stage, each the stage's own result |
| OrderTimeline.LastComplete | components/OrderTimeline.tsx:66-72 | the index of the last true flag, or -1: every later flag is false |
| OrderTimeline.CurrentStageIndex | components/OrderTimeline.tsx:66-72 | the backward scan with break returns the last complete index, or -1 |
| OrderTimeline.LastCompleteIsMaximum | components/OrderTimeline.tsx:66-72 | every complete index is at most the current index; it is -1 iff no stage is complete |
| OrderTimeline.DateRules | components/OrderTimeline.tsx:26-58 | the VIN stage has no date; with an appointment text, ready shows the matched date or else the whole text, and delivered shows only the matched date; without one neither shows a date |
| OrderTimeline.Views | components/OrderTimeline.tsx:79-99 | the views are computed iff no complete stage's date throws, and each is that stage's view |
| OrderTimeline.RenderTimeline | components/OrderTimeline.tsx:63-99 | the component's statuses, scan and per-stage views give the timeline of the order |
| OrderTimeline.ViewsShape | components/OrderTimeline.tsx:79-99 | each view carries its stage and flag, is current iff its index is the current index, has a filled connector iff 0 < index <= current, and has a date only when complete |
| OrderTimeline.TimelineFails | components/OrderTimeline.tsx:18-83 | the timeline throws iff a predicate throws or the date of a complete stage does |
| OrderTimeline.TimelineFlags | components/OrderTimeline.tsx:64-81 | five views with their stages' own flags; the current one is the last complete stage, and none when no stage is complete |
| OrderTimeline.TimelineConnectors | components/OrderTimeline.tsx:99 | the connector before stage i is filled iff 0 < i <= the current index, whatever stage i's own flag |
| OrderTimeline.TimelineDates | components/OrderTimeline.tsx:83 | a date is shown only for a complete stage, as its extractor gives it, and never for the VIN stage |
| OrderTimeline.AtMostOneCurrent | components/OrderTimeline.tsx:81 | no two stages are current |
| OrderTimeline.DeliveredWithoutVin | components/OrderTimeline.tsx:25-99 | with status "delivered", no VIN and no details, stage 4 is current while stage 1 is incomplete yet its connector is filled |
| OrderTimeline.DeliveredExample | components/OrderTimeline.tsx:52 | the status "Delivered" alone makes stage 4 current and leaves stage 1 incomplete |
| HistoryModal.FormatValueShape | components/HistoryModal.tsx:14-27 | missing values show as N/A, only arrays and objects as JSON text, the empty string spelled out, booleans as True/False, and nothing shows as empty text |
| HistoryModal.GetLabelShape | components/HistoryModal.tsx:29-31 | the label is the non-empty table entry, else the key itself, and is never empty for a non-empty key |
| HistoryModal.Reverse | components/HistoryModal.tsx:81 | the copy lists the same snapshots backwards |
| HistoryModal.Lines | components/HistoryModal.tsx:114-137 | one line per diff entry, in the diff's order: its path, label, old value then new value |
| HistoryModal.LogSnoc | components/HistoryModal.tsx:81-119 | a newer snapshot puts its entry, if any, in front of the older snapshots' log and leaves that log unchanged |
| HistoryModal.ChangeLogSnoc | components/HistoryModal.tsx:81-119 | the same for the component's diff |
| HistoryModal.ShortHistories | components/HistoryModal.tsx:77-111 | an empty history has no log entries (the component shows a placeholder instead); one snapshot draws exactly its baseline |
| HistoryModal.LogLength | components/HistoryModal.tsx:83-119 | for any diff, the component's included, a non-empty history's log has one entry per snapshot whose diff against its predecessor is non-empty, plus one |
| HistoryModal.LogEndsWithBaseline | components/HistoryModal.tsx:84-111 | for any diff, the last entry is the baseline, carrying the oldest snapshot's timestamp |
| HistoryModal.LogChangesBefore | components/HistoryModal.tsx:113-143 | for any diff, every entry before the last shows at least one change |
| HistoryModal.EntryShape | components/HistoryModal.tsx:113-119 | a snapshot with an empty diff adds no entry, and any other adds exactly one with at least one line |
| HistoryModal.PredecessorEntry | components/HistoryModal.tsx:83-113 | for any diff, the component's included, snapshot k is compared with snapshot k - 1: the log ends with k's entry followed by the log of the first k snapshots |
| HistoryModal.UnchangedSnapshotAddsNothing | components/HistoryModal.tsx:113-119 | a snapshot equal to its predecessor adds no entry |
| HistoryModal.ChangedSnapshotEntry | components/HistoryModal.tsx:113-137 | a changed snapshot adds one entry in front: its timestamp and one line per changed path, old before new, none for an ignored path, no path twice |
| HistoryModal.RepeatedSnapshotSkipped | components/HistoryModal.tsx:81-143 | three snapshots where the second repeats the first draw two entries: the third's changes, then the baseline |
| DeliveryChecklist.Toggle | components/DeliveryChecklist.tsx:48-53 | the toggled id is stored as the negation of its tick; every other key keeps its value, and no key is added besides the id |
| DeliveryChecklist.ToggleFlips | components/DeliveryChecklist.tsx:51 | a toggle flips the tick; an absent id becomes true |
| DeliveryChecklist.ToggleOthers | components/DeliveryChecklist.tsx:49-52 | a toggle leaves every other item's value and tick unchanged |
| DeliveryChecklist.ToggleTwice | components/DeliveryChecklist.tsx:51 | toggling twice restores every tick, and stores the toggled id as the boolean of its old tick |
| DeliveryChecklist.CompletedCount | components/DeliveryChecklist.tsx:58-59 | the completed count never exceeds the section's total |
| DeliveryChecklist.CountIsTicked | components/DeliveryChecklist.tsx:58 | the count equals the number of positions whose item is ticked |
| DeliveryChecklist.CountBounds | components/DeliveryChecklist.tsx:58-59 | the count reaches the total iff every item is ticked, and is 0 iff none is |
| DeliveryChecklist.ToggleCount | components/DeliveryChecklist.tsx:48-58 | a toggle moves the count by the number of items with that id: up if unticked, down if ticked |
| DeliveryChecklist.Progress | components/DeliveryChecklist.tsx:57-59 | one completed/total pair per section, in order, with completed <= total |
| DeliveryChecklist.InitialFallback | components/DeliveryChecklist.tsx:26-36 | no storage, nothing stored, an empty text or a parse failure give the empty record, with nothing ticked; otherwise the parsed record |

## Left out

- Storage I/O. Snapshot histories and checklist records are parameters. `JSON.parse` is a `parse` parameter that returns None when it throws. Writing the checklist back to storage is not modelled.
- Snapshot writing: no code in this core appends snapshots, so none is modelled. The unused `isFiltered` toggle of the history modal is not modelled either.
- Date and number formatting: `toDateString`, the locale date and time of a log entry, and `String(n)` beyond decimal integers. A date shown by `toDateString` is kept as the value it formats (`DateString`).
- JSON text: `JSON.stringify` of an object or array stays abstract (`JsonText`), including the pretty-printing of texts over 75 characters. Array equality by serialised text is modelled as element-wise equality of the parsed values.
- Floating point: numbers are integers, so NaN, -0 and the checklist's progress percentage are out.
- Key order: `Object.keys` is modelled as field order. JavaScript lists integer-like keys first. `Object.entries(diffs)` then follows insertion order only for non-integer paths.
- Prototype properties: every property read is modelled as an own-property read, so nothing is inherited from `Object.prototype`. `Json.Get` models `a[key]` and `b[key]` in compareObjects (utils/helpers.ts:123-124): a key such as "constructor" present on one side only reads as the `Object` function in JavaScript but as undefined here, and a key "__proto__" present on one side only reads `Object.prototype`, so JavaScript recurses where the model records one whole-value change. The write `diffs[path] = …` (utils/helpers.ts:138, 143) is modelled as adding an entry, although for the path "__proto__" JavaScript sets the prototype of `diffs` instead. `DeliveryChecklist.At` models `prev[itemId]` and `checkedItems[item.id]` (components/DeliveryChecklist.tsx:51, 58, 77) the same way: an item id "constructor" counts as ticked in JavaScript and as unticked here. `HistoryModal.GetLabel` reads `DIFF_KEY_LABELS[key]` as a plain map, so inherited labels are missed. `DIFF_KEY_LABELS` and `DELIVERY_CHECKLIST` live in a constants file that is not part of this model, so both are parameters.
- Lower-casing: `toLowerCase` is modelled for ASCII letters only.
- PKCE and tokens: random bytes, SHA-256, JWT decoding and the token expiry check belong to foreign crypto and the clock. The network, auth and UI components are not modelled either.
- Non-object records: a stored checklist or snapshot that parses to something other than an object (for example `null`) is not modelled. The component would then throw on property access.
- DiffValues.DiffValuesSymmetric: it requires that no key is empty or contains '.'. Without that, two key chains can meet at one dotted path and the later write wins, as CollisionExample shows. Path symmetry (DiffProperties.PathsSymmetric) holds without it.
- Helpers.CompareOrders: it requires every order to carry a string `order.referenceNumber`, as the CombinedOrder type declares.
