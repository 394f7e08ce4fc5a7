/**
 * The stage timeline of components/OrderTimeline.tsx: five delivery stages, each complete by
 * its own predicate over the combined order, the current stage found by a backward scan for
 * the last complete one, and the flags and dates drawn for each stage.
 *
 * The combined order is the JSON value `{order: {...}, details: {...}}`. Optional chaining
 * `x?.k` is Get; a plain `x.k` on undefined or null, and a string method called on a
 * non-string, throw a TypeError, which is the Err case of the results here.
 */
module OrderTimeline {
  import opened Json
  import opened Wrappers
  import DatePattern

  datatype Stage = Placed | VinAssigned | InTransit | ReadyForDelivery | Delivered

  /** The stages in display order. */
  const Stages: seq<Stage> := [Placed, VinAssigned, InTransit, ReadyForDelivery, Delivered]

  function Id(s: Stage): (r: string) {
    match s
    case Placed => "placed"
    case VinAssigned => "vin"
    case InTransit => "transit"
    case ReadyForDelivery => "ready"
    case Delivered => "delivered"
  }

  function Label(s: Stage): (r: string) {
    match s
    case Placed => "Order Placed"
    case VinAssigned => "VIN Assigned"
    case InTransit => "In Transit"
    case ReadyForDelivery => "Ready for Delivery"
    case Delivered => "Delivered"
  }

  /** The two ways the stage code can throw. */
  datatype TypeError =
    | ReadOfNullish(prop: string)    // `x.prop` with x undefined or null
    | NotAFunction(name: string)     // `v.name()` on a value that has no such method

  // ---------------------------------------------------------------------------------------
  // Reading the order.
  // ---------------------------------------------------------------------------------------

  /** `v?.p0?.p1?...`: undefined as soon as a step is missing. */
  function At(v: Value, path: seq<string>): (r: Value)
    decreases |path|
  {
    if path == [] then v else At(Get(v, path[0]), path[1..])
  }

  function BookedDate(o: Value): (r: Value) {
    At(o, ["details", "tasks", "registration", "orderDetails", "orderBookedDate"])
  }

  function Eta(o: Value): (r: Value) {
    At(o, ["details", "tasks", "finalPayment", "data", "etaToDeliveryCenter"])
  }

  function Appointment(o: Value): (r: Value) {
    At(o, ["details", "tasks", "scheduling", "apptDateTimeAddressStr"])
  }

  /** `order.order`, which must not be undefined or null for `.vin` or `.orderStatus`. */
  function Summary(o: Value): (r: Result<Value, TypeError>) {
    var summary := Get(o, "order");
    if summary.Undefined? || summary.Null? then Err(ReadOfNullish("vin/orderStatus"))
    else Ok(summary)
  }

  /** ASCII lower-casing, as `toLowerCase` does for ASCII letters. */
  function LowerChar(c: char): (r: char) {
    if 'A' <= c <= 'Z' then (c as int - 'A' as int + 'a' as int) as char else c
  }

  function Lower(s: string): (r: string)
    ensures |r| == |s| && forall i :: 0 <= i < |s| ==> r[i] == LowerChar(s[i])
  {
    if s == [] then "" else [LowerChar(s[0])] + Lower(s[1..])
  }

  lemma LowerIs(s: string, t: string)
    requires |s| == |t| && forall i :: 0 <= i < |s| ==> LowerChar(s[i]) == t[i]
    ensures Lower(s) == t
  {
  }

  /** `s.includes(t)`. */
  predicate Contains(s: string, t: string) {
    exists i :: 0 <= i <= |s| && OccursAt(s, t, i)
  }

  predicate OccursAt(s: string, t: string, i: int) {
    0 <= i && i + |t| <= |s| && s[i..i + |t|] == t
  }

  lemma ContainsItself(s: string)
    ensures Contains(s, s)
  {
    assert OccursAt(s, s, 0);
  }

  /** `order.order.orderStatus.toLowerCase()`. */
  function LowerStatus(o: Value): (r: Result<string, TypeError>) {
    match Summary(o)
    case Err(e) => Err(e)
    case Ok(summary) =>
      match Get(summary, "orderStatus")
      case Str(s) => Ok(Lower(s))
      case _ => Err(NotAFunction("toLowerCase"))
  }

  // ---------------------------------------------------------------------------------------
  // The completion predicates.
  // ---------------------------------------------------------------------------------------

  /** A stage's `isComplete(order)`; each reads only its own fields. */
  function IsComplete(s: Stage, o: Value): (r: Result<bool, TypeError>) {
    match s
    case Placed =>
      if Truthy(BookedDate(o)) then Ok(true)
      else (match LowerStatus(o) case Ok(st) => Ok(Contains(st, "book")) case Err(e) => Err(e))
    case VinAssigned =>
      (match Summary(o) case Ok(summary) => Ok(Truthy(Get(summary, "vin"))) case Err(e) => Err(e))
    case InTransit => Ok(Truthy(Eta(o)))
    case ReadyForDelivery => Ok(Truthy(Appointment(o)))
    case Delivered =>
      (match LowerStatus(o) case Ok(st) => Ok(Contains(st, "delivered")) case Err(e) => Err(e))
  }

  /**
   * Placed is complete iff a booked date is present or the lower-cased status mentions "book";
   * it throws only when there is no booked date and the status cannot be lower-cased.
   */
  lemma PlacedRule(o: Value)
    ensures IsComplete(Placed, o) == Ok(true) <==>
      Truthy(BookedDate(o)) || (LowerStatus(o).Ok? && Contains(LowerStatus(o).value, "book"))
    ensures IsComplete(Placed, o).Err? <==> !Truthy(BookedDate(o)) && LowerStatus(o).Err?
  {
  }

  /** Delivered is complete iff the lower-cased status mentions "delivered". */
  lemma DeliveredRule(o: Value)
    ensures IsComplete(Delivered, o) == Ok(true) <==> LowerStatus(o).Ok? && Contains(LowerStatus(o).value, "delivered")
    ensures IsComplete(Delivered, o).Err? <==> LowerStatus(o).Err?
  {
  }

  /** The VIN, transit and ready stages are complete iff their own field is truthy. */
  lemma FieldRules(o: Value)
    ensures IsComplete(VinAssigned, o) == Ok(true) <==> Summary(o).Ok? && Truthy(Get(Get(o, "order"), "vin"))
    ensures IsComplete(InTransit, o) == Ok(Truthy(Eta(o)))
    ensures IsComplete(ReadyForDelivery, o) == Ok(Truthy(Appointment(o)))
  {
  }

  /** `STAGES.map(stage => stage.isComplete(combinedOrder))`; the first throw wins. */
  function Statuses(stages: seq<Stage>, o: Value): (r: Result<seq<bool>, TypeError>)
    ensures r.Ok? <==> forall i :: 0 <= i < |stages| ==> IsComplete(stages[i], o).Ok?
    ensures r.Ok? ==> |r.value| == |stages|
    ensures r.Ok? ==> forall i :: 0 <= i < |stages| ==> r.value[i] == IsComplete(stages[i], o).value
  {
    if stages == [] then Ok([])
    else
      match IsComplete(stages[0], o)
      case Err(e) => Err(e)
      case Ok(c) =>
        match Statuses(stages[1..], o)
        case Err(e) => Err(e)
        case Ok(cs) =>
          assert forall i :: 1 <= i < |stages| ==> stages[i] == stages[1..][i - 1];
          Ok([c] + cs)
  }

  // ---------------------------------------------------------------------------------------
  // The current stage.
  // ---------------------------------------------------------------------------------------

  /** The index of the last true flag, or -1. */
  function LastComplete(st: seq<bool>): (r: int)
    ensures -1 <= r < |st|
    ensures r >= 0 ==> st[r]
    ensures forall j :: r < j < |st| ==> !st[j]
  {
    if st == [] then -1
    else if st[|st| - 1] then |st| - 1
    else LastComplete(st[..|st| - 1])
  }

  /** The backward scan of OrderTimeline: the last complete stage, or -1 when none is. */
  method CurrentStageIndex(stageStatuses: seq<bool>) returns (currentStageIndex: int)
    ensures currentStageIndex == LastComplete(stageStatuses)
  {
    currentStageIndex := -1;
    var i := |stageStatuses| - 1;
    while i >= 0
      invariant -1 <= i < |stageStatuses|
      invariant LastComplete(stageStatuses) == LastComplete(stageStatuses[..i + 1])
      invariant currentStageIndex == -1
    {
      if stageStatuses[i] {
        currentStageIndex := i;
        break;
      }
      assert stageStatuses[..i + 1][..i] == stageStatuses[..i];
      i := i - 1;
    }
  }

  /** The current index is the largest complete index. */
  lemma LastCompleteIsMaximum(st: seq<bool>, i: int)
    requires 0 <= i < |st|
    ensures st[i] ==> i <= LastComplete(st)
    ensures LastComplete(st) == -1 <==> forall j :: 0 <= j < |st| ==> !st[j]
  {
  }

  // ---------------------------------------------------------------------------------------
  // Dates.
  // ---------------------------------------------------------------------------------------

  /** A date as drawn: `new Date(v).toDateString()`, or a piece of the appointment text. */
  datatype DateText = DateString(of: Value) | Text(s: string)

  /** The piece of the appointment text shown as its date, if any. */
  function AppointmentDate(o: Value, fallBackToWhole: bool): (r: Result<Option<DateText>, TypeError>) {
    var appt := Appointment(o);
    if !Truthy(appt) then Ok(None)
    else if !appt.Str? then Err(NotAFunction("match"))
    else
      match DatePattern.FirstDate(appt.s)
      case Some(m) => Ok(Some(Text(m)))
      case None => Ok(if fallBackToWhole then Some(Text(appt.s)) else None)
  }

  /** A stage's `date(order)`. */
  function StageDate(s: Stage, o: Value): (r: Result<Option<DateText>, TypeError>) {
    match s
    case Placed => Ok(if Truthy(BookedDate(o)) then Some(DateString(BookedDate(o))) else None)
    case VinAssigned => Ok(None)
    // `toDateString()` never gives "", so the `|| null` never applies.
    case InTransit => Ok(Some(DateString(Eta(o))))
    case ReadyForDelivery => AppointmentDate(o, true)
    case Delivered => AppointmentDate(o, false)
  }

  /** The extractors as the source states them, for a complete stage. */
  lemma DateRules(o: Value)
    ensures StageDate(VinAssigned, o) == Ok(None)
    ensures var appt := Appointment(o);
      appt.Str? && appt.s != "" ==>
        StageDate(ReadyForDelivery, o) ==
          Ok(Some(Text(if DatePattern.FirstDate(appt.s).Some? then DatePattern.FirstDate(appt.s).value else appt.s))) &&
        StageDate(Delivered, o) ==
          Ok(if DatePattern.FirstDate(appt.s).Some? then Some(Text(DatePattern.FirstDate(appt.s).value)) else None)
    ensures !Truthy(Appointment(o)) ==> StageDate(ReadyForDelivery, o) == Ok(None) && StageDate(Delivered, o) == Ok(None)
  {
  }

  // ---------------------------------------------------------------------------------------
  // The drawn timeline.
  // ---------------------------------------------------------------------------------------

  datatype StageView = StageView(stage: Stage, complete: bool, current: bool, connectorComplete: bool, date: Option<DateText>)

  /** One stage as drawn: `isCurrent`, `connectorComplete`, and the date of a complete stage only. */
  function View(s: Stage, index: nat, complete: bool, cur: int, o: Value): (r: Result<StageView, TypeError>) {
    var date := if complete then StageDate(s, o) else Ok(None);
    match date
    case Err(e) => Err(e)
    case Ok(d) => Ok(StageView(s, complete, index == cur, index > 0 && index <= cur, d))
  }

  function Views(stages: seq<Stage>, st: seq<bool>, from: nat, cur: int, o: Value): (r: Result<seq<StageView>, TypeError>)
    requires |st| == |stages|
    requires from <= |stages|
    ensures r.Ok? <==> forall i :: from <= i < |stages| ==> st[i] ==> StageDate(stages[i], o).Ok?
    ensures r.Ok? ==> |r.value| == |stages| - from
    ensures r.Ok? ==> forall i :: from <= i < |stages| ==> View(stages[i], i, st[i], cur, o) == Ok(r.value[i - from])
    decreases |stages| - from
  {
    if from == |stages| then Ok([])
    else
      match View(stages[from], from, st[from], cur, o)
      case Err(e) => Err(e)
      case Ok(v) =>
        match Views(stages, st, from + 1, cur, o)
        case Err(e) => Err(e)
        case Ok(vs) => Ok([v] + vs)
  }

  /** The whole timeline of a combined order, as the component computes it. */
  function Timeline(o: Value): (r: Result<seq<StageView>, TypeError>) {
    match Statuses(Stages, o)
    case Err(e) => Err(e)
    case Ok(st) => Views(Stages, st, 0, LastComplete(st), o)
  }

  /** The component's computation: the statuses, the backward scan, then one view per stage. */
  method RenderTimeline(o: Value) returns (r: Result<seq<StageView>, TypeError>)
    ensures r == Timeline(o)
  {
    var stageStatuses := Statuses(Stages, o);
    if stageStatuses.Err? {
      return Err(stageStatuses.error);
    }
    var currentStageIndex := CurrentStageIndex(stageStatuses.value);
    r := Views(Stages, stageStatuses.value, 0, currentStageIndex, o);
  }

  /** The views of any stage list, drawn with current index cur. */
  lemma ViewsShape(stages: seq<Stage>, st: seq<bool>, cur: int, o: Value)
    requires |st| == |stages| && Views(stages, st, 0, cur, o).Ok?
    ensures var vs := Views(stages, st, 0, cur, o).value;
      |vs| == |stages| &&
      forall i :: 0 <= i < |vs| ==>
        vs[i].stage == stages[i] && vs[i].complete == st[i] &&
        (vs[i].current <==> i == cur) &&
        (vs[i].connectorComplete <==> 0 < i <= cur) &&
        (vs[i].date.Some? ==> st[i] && StageDate(stages[i], o) == Ok(vs[i].date))
  {
    var vs := Views(stages, st, 0, cur, o).value;
    forall i | 0 <= i < |vs|
      ensures vs[i].stage == stages[i] && vs[i].complete == st[i]
      ensures vs[i].current <==> i == cur
      ensures vs[i].connectorComplete <==> 0 < i <= cur
      ensures vs[i].date.Some? ==> st[i] && StageDate(stages[i], o) == Ok(vs[i].date)
    {
      assert View(stages[i], i, st[i], cur, o) == Ok(vs[i]);
    }
  }

  /** The timeline throws iff a predicate throws or the date of a complete stage does. */
  lemma TimelineFails(o: Value)
    ensures Timeline(o).Ok? <==>
      Statuses(Stages, o).Ok? &&
      forall i :: 0 <= i < 5 ==> IsComplete(Stages[i], o).value ==> StageDate(Stages[i], o).Ok?
  {
  }

  /** The index the timeline's flags are drawn from. */
  function CurrentIndex(o: Value): (r: int)
    requires Statuses(Stages, o).Ok?
  {
    LastComplete(Statuses(Stages, o).value)
  }

  /**
   * What the timeline marks: every stage's flag is its own predicate's result (Statuses), and
   * exactly the stage at the current index (the last complete one) is current, none when that
   * index is -1.
   */
  lemma TimelineFlags(o: Value)
    requires Timeline(o).Ok?
    ensures Statuses(Stages, o).Ok?
    ensures var vs, st, cur := Timeline(o).value, Statuses(Stages, o).value, CurrentIndex(o);
      |vs| == 5 &&
      (forall i :: 0 <= i < 5 ==> vs[i].stage == Stages[i] && vs[i].complete == st[i]) &&
      (forall i :: 0 <= i < 5 ==> (vs[i].current <==> i == cur)) &&
      (cur >= 0 ==> vs[cur].complete && forall j :: cur < j < 5 ==> !vs[j].complete) &&
      (cur == -1 ==> forall j :: 0 <= j < 5 ==> !vs[j].complete)
  {
    var st := Statuses(Stages, o).value;
    ViewsShape(Stages, st, LastComplete(st), o);
  }

  /** The connector before stage i is filled iff 0 < i <= the current index, whatever stage i's own flag. */
  lemma TimelineConnectors(o: Value)
    requires Timeline(o).Ok?
    ensures Statuses(Stages, o).Ok?
    ensures var vs, cur := Timeline(o).value, CurrentIndex(o);
      |vs| == 5 && forall i :: 0 <= i < 5 ==> (vs[i].connectorComplete <==> 0 < i <= cur)
  {
    var st := Statuses(Stages, o).value;
    ViewsShape(Stages, st, LastComplete(st), o);
  }

  /** A date is shown only for a complete stage, as that stage's extractor gives it, and never for the VIN stage. */
  lemma TimelineDates(o: Value)
    requires Timeline(o).Ok?
    ensures Statuses(Stages, o).Ok?
    ensures var vs, st := Timeline(o).value, Statuses(Stages, o).value;
      |vs| == 5 &&
      (forall i :: 0 <= i < 5 ==> vs[i].date.Some? ==> st[i] && StageDate(vs[i].stage, o) == Ok(vs[i].date)) &&
      vs[1].date.None?
  {
    var st := Statuses(Stages, o).value;
    ViewsShape(Stages, st, LastComplete(st), o);
    assert Stages[1] == VinAssigned;
  }

  /** At most one stage is current. */
  lemma AtMostOneCurrent(o: Value, i: nat, j: nat)
    requires Timeline(o).Ok? && i < 5 && j < 5
    requires Timeline(o).value[i].current && Timeline(o).value[j].current
    ensures i == j
  {
    TimelineFlags(o);
  }

  lemma AtUndefined(path: seq<string>)
    ensures At(Undefined, path) == Undefined
  {
  }

  /** Without details, none of the detail fields is present. */
  lemma NoDetails(o: Value)
    requires Get(o, "details") == Undefined
    ensures BookedDate(o) == Undefined && Eta(o) == Undefined && Appointment(o) == Undefined
  {
    AtUndefined(["tasks", "registration", "orderDetails", "orderBookedDate"]);
    AtUndefined(["tasks", "finalPayment", "data", "etaToDeliveryCenter"]);
    AtUndefined(["tasks", "scheduling", "apptDateTimeAddressStr"]);
  }

  /** With a string status, no predicate throws. */
  lemma StatusesOk(o: Value)
    requires LowerStatus(o).Ok?
    ensures Statuses(Stages, o).Ok?
  {
    assert forall i :: 0 <= i < 5 ==> IsComplete(Stages[i], o).Ok?;
  }

  /** With no appointment text, no date throws. */
  lemma DatesOk(o: Value)
    requires Appointment(o) == Undefined
    ensures forall i :: 0 <= i < 5 ==> StageDate(Stages[i], o).Ok?
  {
  }

  /**
   * An order whose status reads "delivered", with no VIN and no details: stage 4 is current
   * while stage 1 stays incomplete, and the connector before stage 1 is still filled.
   */
  lemma DeliveredWithoutVin(o: Value)
    requires Get(o, "details") == Undefined && LowerStatus(o) == Ok("delivered")
    requires !Truthy(Get(Get(o, "order"), "vin"))
    ensures Timeline(o).Ok? && CurrentIndex(o) == 4
    ensures !Timeline(o).value[1].complete && Timeline(o).value[1].connectorComplete
    ensures Timeline(o).value[4].current
  {
    NoDetails(o);
    StatusesOk(o);
    DatesOk(o);
    TimelineFails(o);
    ContainsItself("delivered");
    DeliveredRule(o);
    FieldRules(o);
    TimelineFlags(o);
    TimelineConnectors(o);
  }

  lemma GetSingle(k: string, v: Value, k': string)
    ensures Get(Obj([Field(k, v)]), k') == if k == k' then v else Undefined
  {
    var fs := [Field(k, v)];
    assert Entries(Obj(fs)) == fs;
    assert fs[0].key == k;
    assert Lookup(fs[1..], k') == Undefined;
    if k == k' {
      assert Lookup(fs, k') == v;
    } else {
      assert Lookup(fs, k') == Undefined;
    }
  }

  /** The order `{order: {orderStatus: "Delivered"}}`. */
  function DeliveredOrder(): (r: Value) {
    Obj([Field("order", Obj([Field("orderStatus", Str("Delivered"))]))])
  }

  lemma DeliveredOrderGets()
    ensures Get(DeliveredOrder(), "details") == Undefined
    ensures Get(DeliveredOrder(), "order") == Obj([Field("orderStatus", Str("Delivered"))])
    ensures Get(Get(DeliveredOrder(), "order"), "vin") == Undefined
    ensures Get(Get(DeliveredOrder(), "order"), "orderStatus") == Str("Delivered")
  {
    var summary := Obj([Field("orderStatus", Str("Delivered"))]);
    GetSingle("order", summary, "details");
    GetSingle("order", summary, "order");
    GetSingle("orderStatus", Str("Delivered"), "vin");
    GetSingle("orderStatus", Str("Delivered"), "orderStatus");
  }

  lemma DeliveredOrderFields()
    ensures Get(DeliveredOrder(), "details") == Undefined
    ensures LowerStatus(DeliveredOrder()) == Ok("delivered")
    ensures !Truthy(Get(Get(DeliveredOrder(), "order"), "vin"))
  {
    DeliveredOrderGets();
    LowerIs("Delivered", "delivered");
  }

  /** The status "Delivered" as the vendor writes it, with nothing else known. */
  lemma DeliveredExample()
    ensures Timeline(DeliveredOrder()).Ok? && CurrentIndex(DeliveredOrder()) == 4
    ensures !Timeline(DeliveredOrder()).value[1].complete
  {
    DeliveredOrderFields();
    DeliveredWithoutVin(DeliveredOrder());
  }
}
