/**
 * The settings screen: the form's validation schema as a validity predicate over the
 * entered values, and the gate in front of the draw screen.
 */
module Settings {
  import opened Wrappers
  import opened Text
  import opened Store
  import opened Inventory
  import opened MainProcess

  /**
   * The settings form after the schema's transforms: a numeric field is None when it was
   * left blank (a blank entry is turned into undefined).
   */
  datatype Form = Form(
    eventName: string,
    mainPrizeCount: Option<int>,
    consolationPrizeCount: Option<int>,
    totalDigits: Option<int>,
    minRange: Option<int>,
    maxRange: Option<int>)

  datatype Field = EventName | MainPrizeCount | ConsolationPrizeCount | TotalDigits | MinRange | MaxRange

  /** String(x) of a numeric form value: its numeral, or "undefined" for a blank field. */
  function JsText(x: Option<int>): string
  {
    if x.None? then "undefined" else IntToString(x.value)
  }

  /** The schema's rule for one field: required, the minimum where there is one, and its test. */
  predicate FieldValid(form: Form, field: Field)
  {
    match field
    case EventName => form.eventName != ""
    case MainPrizeCount => form.mainPrizeCount.Some? && form.mainPrizeCount.value >= 1
    case ConsolationPrizeCount => form.consolationPrizeCount.Some? && form.consolationPrizeCount.value >= 1
    case TotalDigits =>
      && form.totalDigits.Some? && form.totalDigits.value >= 3
      && |JsText(form.maxRange)| <= form.totalDigits.value
      && |JsText(form.minRange)| <= form.totalDigits.value
    case MinRange => form.minRange.Some? && form.maxRange.Some? && form.minRange.value < form.maxRange.value
    case MaxRange => form.maxRange.Some? && form.minRange.Some? && form.maxRange.value > form.minRange.value
  }

  /** The fields the resolver reports an error for. */
  function Errors(form: Form): (errors: set<Field>)
    ensures forall field :: field in errors <==> !FieldValid(form, field)
  {
    (if FieldValid(form, EventName) then {} else {EventName})
    + (if FieldValid(form, MainPrizeCount) then {} else {MainPrizeCount})
    + (if FieldValid(form, ConsolationPrizeCount) then {} else {ConsolationPrizeCount})
    + (if FieldValid(form, TotalDigits) then {} else {TotalDigits})
    + (if FieldValid(form, MinRange) then {} else {MinRange})
    + (if FieldValid(form, MaxRange) then {} else {MaxRange})
  }

  /** A form the schema accepts, stated over the values themselves. */
  predicate FormValid(form: Form)
  {
    && form.eventName != ""
    && form.mainPrizeCount.Some? && form.mainPrizeCount.value >= 1
    && form.consolationPrizeCount.Some? && form.consolationPrizeCount.value >= 1
    && form.totalDigits.Some? && form.totalDigits.value >= 3
    && form.minRange.Some? && form.maxRange.Some?
    && form.minRange.value < form.maxRange.value
    && |IntToString(form.minRange.value)| <= form.totalDigits.value
    && |IntToString(form.maxRange.value)| <= form.totalDigits.value
  }

  /** The requirements row a valid form is saved as. */
  function ToRequirements(form: Form): (req: Requirements)
    requires FormValid(form)
    ensures req.eventName == form.eventName && req.totalDigits == form.totalDigits.value
    ensures req.minRange == form.minRange.value < req.maxRange == form.maxRange.value
    ensures req.mainPrizeCount == form.mainPrizeCount.value >= 1
    ensures req.consolationPrizeCount == form.consolationPrizeCount.value >= 1
  {
    Requirements(form.eventName, form.mainPrizeCount.value, form.consolationPrizeCount.value,
      form.totalDigits.value, form.maxRange.value, form.minRange.value)
  }

  /** The form is accepted exactly when no field reports an error. */
  lemma FormValidIffNoErrors(form: Form)
    ensures FormValid(form) <==> Errors(form) == {}
  {
    if Errors(form) == {} {
      assert FieldValid(form, EventName) && FieldValid(form, MainPrizeCount);
      assert FieldValid(form, ConsolationPrizeCount) && FieldValid(form, TotalDigits);
      assert FieldValid(form, MinRange);
    }
  }

  /** "From" and "To" each test the same comparison, so they are valid or invalid together. */
  lemma RangeFieldsAgree(form: Form)
    ensures FieldValid(form, MinRange) <==> FieldValid(form, MaxRange)
  {
  }

  /** Every value between the accepted bounds is written in at most total_digits characters. */
  lemma ValidFormBoundsNumerals(form: Form, v: int)
    requires FormValid(form)
    requires form.minRange.value <= v <= form.maxRange.value
    ensures |IntToString(v)| <= form.totalDigits.value
  {
    var lo, hi := form.minRange.value, form.maxRange.value;
    if v >= 0 {
      NatToStringLengthMonotone(v, hi);
    } else {
      NatToStringLengthMonotone(-v, -lo);
    }
  }

  /** The canonical numeral of any value in an accepted range passes the inventory filter. */
  lemma InRangeNumeralsAreNotProblematic(form: Form, v: int)
    requires FormValid(form)
    requires form.minRange.value <= v <= form.maxRange.value
    ensures !IsProblematic(IntToString(v), ToRequirements(form))
  {
    ValidFormBoundsNumerals(form, v);
    JsNumberOfIntToString(v);
  }

  /**
   * The schema does not ask the range to hold as many values as there are prizes: five main
   * and five consolation prizes over the range 1..2 are accepted.
   */
  lemma ValidFormMayLackRoom()
    ensures var form := Form("Annual Draw", Some(5), Some(5), Some(3), Some(1), Some(2));
      && FormValid(form)
      && form.maxRange.value - form.minRange.value + 1 < form.mainPrizeCount.value + form.consolationPrizeCount.value
  {
    assert NatToString(1) == "1" && NatToString(2) == "2";
  }

  /** What pressing the draw-screen button does. */
  datatype GateAction = NavigateToDraw | Stay | AlertIntegrity

  /**
   * handleDrawScreen: with the last inventory load successful, ask is-navigation-allowed and
   * navigate only on a true reply (a thrown handler rejects the call and nothing happens);
   * otherwise raise the integrity alert without asking.
   */
  function DrawScreenGate(integrity: bool, navigation: Reply<bool>): (action: GateAction)
    ensures action == NavigateToDraw <==> integrity && navigation == Returned(true)
    ensures action == AlertIntegrity <==> !integrity
  {
    if !integrity then AlertIntegrity
    else if navigation.Returned? && navigation.value then NavigateToDraw
    else Stay
  }
}
