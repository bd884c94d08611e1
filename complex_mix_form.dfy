/**
 * The multi-component form page: the editable list of component rows (add,
 * remove with a floor of three rows, edit one field) and the submit handler,
 * which validates the inputs in a fixed order, stops at the first failure
 * with an error message, and otherwise builds the request body for
 * POST /api/mix/complex. Sending the request and showing the answer are not
 * modelled.
 */
module ComplexMixForm {
  import opened Wrappers
  import opened Decimal

  datatype MixType = Standard | Priority

  /** The mix_type value sent to the server. */
  function MixTypeName(t: MixType): string {
    match t
    case Standard => "standard"
    case Priority => "priority"
  }

  /** One component row: the intensity as typed and the priority picked from the list. */
  datatype Row = Row(intensity: string, priority: int)

  /** The two edits a row accepts: updateComponent(index, "intensity", text) and (index, "priority", rank). */
  datatype Edit = SetIntensity(text: string) | SetPriority(rank: int)

  function Apply(row: Row, edit: Edit): (r: Row)
    ensures edit.SetIntensity? ==> r.intensity == edit.text && r.priority == row.priority
    ensures edit.SetPriority? ==> r.priority == edit.rank && r.intensity == row.intensity
  {
    match edit
    case SetIntensity(text) => row.(intensity := text)
    case SetPriority(rank) => row.(priority := rank)
  }

  /** JavaScript's parseFloat: leading whitespace is skipped, then the longest decimal prefix is read. */
  function ParseFloat(s: string): Option<real> {
    match ScanDecimal(TrimStart(s))
    case Some(scan) => Some(scan.value)
    case None => None
  }

  /**
   * After leading whitespace, parseFloat reads the longest prefix that is a
   * numeral and gives its value; it gives NaN exactly when no prefix is one.
   */
  lemma ParseFloatLongest(s: string)
    ensures ParseFloat(s).Some? <==> exists k | 0 <= k <= |TrimStart(s)| :: IsNumeral(TrimStart(s)[..k])
    ensures ParseFloat(s).Some? ==>
              exists n | 1 <= n <= |TrimStart(s)| ::
                && IsNumeral(TrimStart(s)[..n])
                && ParseFloat(s).value == NumeralValue(TrimStart(s)[..n])
                && forall k | n < k <= |TrimStart(s)| :: !IsNumeral(TrimStart(s)[..k])
  {
    var t := TrimStart(s);
    ScanDecimalLongest(t);
    if ScanDecimal(t).Some? {
      var n := ScanDecimal(t).value.length;
      assert ParseFloat(s) == Some(ScanDecimal(t).value.value);
      assert IsNumeral(t[..n]);
      assert n <= |TrimStart(s)|;
      assert exists k | 0 <= k <= |TrimStart(s)| :: IsNumeral(TrimStart(s)[..k]);
      assert ParseFloat(s).Some?;
    } else {
      assert ParseFloat(s).None?;
    }
  }

  /**
   * parseFloat reads an integer's text back, and ignores whatever follows it
   * when that cannot continue a number (a digit, a dot, or an exponent).
   */
  lemma ParseFloatReadsNumber(n: nat, rest: string)
    requires rest == [] || !(IsDigit(rest[0]) || rest[0] == '.' || rest[0] == 'e' || rest[0] == 'E')
    ensures ParseFloat(NatToString(n) + rest) == Some(n as real)
  {
    var t := NatToString(n);
    var s := t + rest;
    assert s[0] == t[0];
    assert TrimStart(s) == s;
    ScanDigits(t, rest);
    DigitsValueOfNatToString(n);
  }

  datatype RowProblem = BadIntensity | BadPriority

  /** The failures of the submit handler, in the order it checks them. */
  datatype FormError =
    | BadTotal
    | BadDesired
    | MissingUnits
    | BadComponent(index: nat, problem: RowProblem)

  /** The message the form shows; components are numbered from 1. */
  function Message(e: FormError): (text: string)
    ensures text != ""
    ensures e.BadComponent? ==>
              var n := NatToString(e.index + 1) + ".";
              |n| <= |text| && text[|text| - |n|..] == n
  {
    match e
    case BadTotal => "Molimo unesite ispravne numeričke vrijednosti za ukupnu količinu."
    case BadDesired => "Molimo unesite ispravnu numeričku vrijednost za željeni intenzitet."
    case MissingUnits => "Molimo unesite obje mjerne jedinice."
    case BadComponent(i, problem) =>
      var lead := match problem
        case BadIntensity => "Molimo unesite ispravnu numeričku vrijednost intenziteta za komponentu "
        case BadPriority => "Molimo unesite ispravan prioritet za komponentu ";
      var n := NatToString(i + 1) + ".";
      assert (lead + n)[|lead + n| - |n|..] == n;
      lead + n
  }

  /**
   * The check of one row: an empty or non-numeric intensity first, then, in
   * priority mode only, a priority below 1 (0 is also falsy, so `!priority`
   * adds nothing for an integer priority).
   */
  function RowCheck(row: Row, mixType: MixType): (r: Option<RowProblem>)
  {
    if row.intensity == "" || ParseFloat(row.intensity).None? then Some(BadIntensity)
    else if mixType == Priority && row.priority < 1 then Some(BadPriority)
    else None
  }

  /**
   * A row passes exactly when its intensity is non-empty and parses and, in
   * priority mode, its priority is at least 1; a priority problem is only
   * reported in priority mode, for a row whose intensity passed.
   */
  lemma RowCheckPasses(row: Row, mixType: MixType)
    ensures RowCheck(row, mixType).None? <==>
              row.intensity != "" && ParseFloat(row.intensity).Some? && (mixType == Priority ==> row.priority >= 1)
    ensures RowCheck(row, mixType) == Some(BadPriority) ==> mixType == Priority && ParseFloat(row.intensity).Some?
  {
  }

  /** The verdicts of the row checks, one per row. */
  function Checks(rows: seq<Row>, mixType: MixType): (c: seq<Option<RowProblem>>)
    ensures |c| == |rows|
    ensures forall i | 0 <= i < |rows| :: c[i] == RowCheck(rows[i], mixType)
  {
    seq(|rows|, i requires 0 <= i < |rows| => RowCheck(rows[i], mixType))
  }

  /** The first failing verdict at or after index from, with its problem. */
  function FirstFailure(checks: seq<Option<RowProblem>>, from: nat): (r: Option<(nat, RowProblem)>)
    requires from <= |checks|
    ensures r.Some? ==> from <= r.value.0 < |checks| && checks[r.value.0] == Some(r.value.1)
    ensures r.Some? ==> forall j | from <= j < r.value.0 :: checks[j].None?
    ensures r.None? ==> forall j | from <= j < |checks| :: checks[j].None?
    decreases |checks| - from
  {
    if from == |checks| then None
    else if checks[from].Some? then Some((from, checks[from].value))
    else FirstFailure(checks, from + 1)
  }

  /** The reported verdict is a failing one with no failing verdict before it, and only that one is. */
  lemma FirstFailureAt(checks: seq<Option<RowProblem>>, i: nat, problem: RowProblem)
    ensures FirstFailure(checks, 0) == Some((i, problem))
            <==> i < |checks| && checks[i] == Some(problem) && forall j | 0 <= j < i :: checks[j].None?
  {
  }

  /** One entry of the request's components list. */
  datatype PayloadComponent = PayloadComponent(name: string, intensity: real, priority: Option<int>)

  /** The JSON body sent to the server. */
  datatype Payload = Payload(components: seq<PayloadComponent>, totalAmount: real, desiredIntensity: real, mixType: string)

  function ComponentName(i: nat): string {
    "Komponenta " + NatToString(i + 1)
  }

  /** Different rows get different names. */
  lemma ComponentNamesDistinct(i: nat, j: nat)
    requires i != j
    ensures ComponentName(i) != ComponentName(j)
  {
    if ComponentName(i) == ComponentName(j) {
      var prefix := "Komponenta ";
      assert ComponentName(i)[|prefix|..] == NatToString(i + 1);
      assert ComponentName(j)[|prefix|..] == NatToString(j + 1);
      NatToStringInjective(i + 1, j + 1);
    }
  }

  /**
   * components.map((comp, i) => ...): each row becomes a named entry with its
   * parsed intensity; the priority is sent only in priority mode.
   */
  function BuildPayload(rows: seq<Row>, total: real, desired: real, mixType: MixType): (p: Payload)
    requires forall i | 0 <= i < |rows| :: ParseFloat(rows[i].intensity).Some?
    ensures |p.components| == |rows| && p.totalAmount == total && p.desiredIntensity == desired
    ensures p.mixType == MixTypeName(mixType)
    ensures forall i | 0 <= i < |rows| ::
              && p.components[i].name == ComponentName(i)
              && Some(p.components[i].intensity) == ParseFloat(rows[i].intensity)
              && (p.components[i].priority.Some? <==> mixType == Priority)
              && (p.components[i].priority.Some? ==> p.components[i].priority.value == rows[i].priority)
  {
    var entries := seq(|rows|, i requires 0 <= i < |rows| =>
      PayloadComponent(ComponentName(i), ParseFloat(rows[i].intensity).value,
                       if mixType == Priority then Some(rows[i].priority) else None));
    Payload(entries, total, desired, MixTypeName(mixType))
  }

  /** The field is a number above 0 for parseFloat. */
  predicate TotalOk(total: string) {
    ParseFloat(total).Some? && ParseFloat(total).value > 0.0
  }

  predicate Blank(s: string) {
    forall k | 0 <= k < |s| :: IsWhitespace(s[k])
  }

  /**
   * The checks of the fields above the rows, in order; when all pass, the
   * parsed total amount and desired intensity.
   */
  function CheckFields(total: string, desired: string, unitConcentration: string, unitQuantity: string)
    : (r: Result<(real, real), FormError>)
    ensures r.Ok? ==> Some(r.value.0) == ParseFloat(total) && r.value.0 > 0.0 && Some(r.value.1) == ParseFloat(desired)
    ensures r.Err? ==> r.error == BadTotal || r.error == BadDesired || r.error == MissingUnits
  {
    var t := ParseFloat(total);
    if t.None? || t.value <= 0.0 then Err(BadTotal)
    else
      var d := ParseFloat(desired);
      if d.None? then Err(BadDesired)
      else if Trim(unitConcentration) == "" || Trim(unitQuantity) == "" then Err(MissingUnits)
      else Ok((t.value, d.value))
  }

  /** What the submit handler decides for the current field values. */
  function Validate(total: string, desired: string, unitConcentration: string, unitQuantity: string,
                    rows: seq<Row>, mixType: MixType): Result<Payload, FormError>
  {
    match CheckFields(total, desired, unitConcentration, unitQuantity)
    case Err(e) => Err(e)
    case Ok((t, d)) =>
      match FirstFailure(Checks(rows, mixType), 0)
      case Some((i, problem)) => Err(BadComponent(i, problem))
      case None => Ok(BuildPayload(rows, t, d, mixType))
  }

  /**
   * The body sent carries the parsed total and desired intensity, one entry
   * per row and the mode's name; a row error names an existing row.
   */
  lemma ValidatePayload(total: string, desired: string, unitConcentration: string, unitQuantity: string,
                        rows: seq<Row>, mixType: MixType)
    ensures var r := Validate(total, desired, unitConcentration, unitQuantity, rows, mixType);
            && (r.Ok? ==> Some(r.value.totalAmount) == ParseFloat(total)
                          && Some(r.value.desiredIntensity) == ParseFloat(desired))
            && (r.Ok? ==> |r.value.components| == |rows| && r.value.mixType == MixTypeName(mixType))
            && (r.Err? && r.error.BadComponent? ==> r.error.index < |rows|)
  {
  }

  /** The total amount is checked first: it must read as a number above 0. */
  lemma ValidateChecksTotalFirst(total: string, desired: string, unitConcentration: string, unitQuantity: string,
                                 rows: seq<Row>, mixType: MixType)
    ensures Validate(total, desired, unitConcentration, unitQuantity, rows, mixType) == Err(BadTotal)
            <==> !TotalOk(total)
  {
  }

  /** The desired intensity is checked second: any number is accepted. */
  lemma ValidateChecksDesiredSecond(total: string, desired: string, unitConcentration: string, unitQuantity: string,
                                    rows: seq<Row>, mixType: MixType)
    ensures Validate(total, desired, unitConcentration, unitQuantity, rows, mixType) == Err(BadDesired)
            <==> TotalOk(total) && ParseFloat(desired).None?
  {
  }

  /** The two units are checked third: each must hold something besides whitespace. */
  lemma ValidateChecksUnitsThird(total: string, desired: string, unitConcentration: string, unitQuantity: string,
                                 rows: seq<Row>, mixType: MixType)
    ensures Validate(total, desired, unitConcentration, unitQuantity, rows, mixType) == Err(MissingUnits)
            <==> TotalOk(total) && ParseFloat(desired).Some? && (Blank(unitConcentration) || Blank(unitQuantity))
  {
    TrimEmptyIffBlank(unitConcentration);
    TrimEmptyIffBlank(unitQuantity);
  }

  /** The fields that come before the rows all pass. */
  predicate FieldsOk(total: string, desired: string, unitConcentration: string, unitQuantity: string) {
    TotalOk(total) && ParseFloat(desired).Some? && !Blank(unitConcentration) && !Blank(unitQuantity)
  }

  /** The fields pass exactly when none of the three field errors is reported. */
  lemma FieldsOkIff(total: string, desired: string, unitConcentration: string, unitQuantity: string)
    ensures FieldsOk(total, desired, unitConcentration, unitQuantity)
            <==> CheckFields(total, desired, unitConcentration, unitQuantity).Ok?
    ensures var c := CheckFields(total, desired, unitConcentration, unitQuantity);
            c.Err? ==> c.error == BadTotal || c.error == BadDesired || c.error == MissingUnits
  {
    TrimEmptyIffBlank(unitConcentration);
    TrimEmptyIffBlank(unitQuantity);
  }

  /**
   * The rows are checked last, in index order: the error names the first
   * failing row and its problem.
   */
  lemma ValidateChecksRowsInOrder(total: string, desired: string, unitConcentration: string, unitQuantity: string,
                                  rows: seq<Row>, mixType: MixType, i: nat, problem: RowProblem)
    ensures Validate(total, desired, unitConcentration, unitQuantity, rows, mixType) == Err(BadComponent(i, problem))
            <==> && FieldsOk(total, desired, unitConcentration, unitQuantity)
                 && i < |rows| && RowCheck(rows[i], mixType) == Some(problem)
                 && forall j | 0 <= j < i :: RowCheck(rows[j], mixType).None?
  {
    FieldsOkIff(total, desired, unitConcentration, unitQuantity);
    var checks := Checks(rows, mixType);
    assert Validate(total, desired, unitConcentration, unitQuantity, rows, mixType) == Err(BadComponent(i, problem))
           <==> CheckFields(total, desired, unitConcentration, unitQuantity).Ok?
                && FirstFailure(checks, 0) == Some((i, problem));
    FirstFailureAt(checks, i, problem);
  }

  /** The request is built exactly when every field and every row passes. */
  lemma ValidateAcceptsIff(total: string, desired: string, unitConcentration: string, unitQuantity: string,
                           rows: seq<Row>, mixType: MixType)
    ensures Validate(total, desired, unitConcentration, unitQuantity, rows, mixType).Ok?
            <==> && FieldsOk(total, desired, unitConcentration, unitQuantity)
                 && forall j | 0 <= j < |rows| :: RowCheck(rows[j], mixType).None?
  {
    FieldsOkIff(total, desired, unitConcentration, unitQuantity);
    var checks := Checks(rows, mixType);
    assert Validate(total, desired, unitConcentration, unitQuantity, rows, mixType).Ok?
           <==> CheckFields(total, desired, unitConcentration, unitQuantity).Ok? && FirstFailure(checks, 0).None?;
  }

  /**
   * The row loop of the submit handler: rows are checked in index order and
   * the first one that fails is reported with its problem.
   */
  method FindBadRow(rows: seq<Row>, mixType: MixType) returns (failure: Option<(nat, RowProblem)>)
    ensures failure == FirstFailure(Checks(rows, mixType), 0)
  {
    ghost var checks := Checks(rows, mixType);
    for i := 0 to |rows|
      invariant forall j | 0 <= j < i :: checks[j].None?
    {
      var problem := RowCheck(rows[i], mixType);
      assert checks[i] == problem;
      if problem.Some? {
        FirstFailureAt(checks, i, problem.value);
        return Some((i, problem.value));
      }
    }
    return None;
  }

  /** components.filter((_, i) => i !== index): every row except the one at position index, in order. */
  function KeepOthers(rows: seq<Row>, index: int): (r: seq<Row>)
    ensures |r| == if 0 <= index < |rows| then |rows| - 1 else |rows|
  {
    if |rows| == 0 then []
    else
      KeepOthers(rows[..|rows| - 1], index) + (if |rows| - 1 == index then [] else [rows[|rows| - 1]])
  }

  /** The filter drops exactly the row at index, keeping the others in order, and drops nothing for an index out of range. */
  lemma {:induction false} KeepOthersDropsIndex(rows: seq<Row>, index: int)
    ensures 0 <= index < |rows| ==> KeepOthers(rows, index) == rows[..index] + rows[index + 1..]
    ensures !(0 <= index < |rows|) ==> KeepOthers(rows, index) == rows
    decreases |rows|
  {
    if |rows| > 0 {
      var init, last := rows[..|rows| - 1], rows[|rows| - 1];
      KeepOthersDropsIndex(init, index);
      if index == |rows| - 1 {
        assert init == rows[..index];
        assert rows[index + 1..] == [];
      } else if 0 <= index < |rows| - 1 {
        assert init[..index] == rows[..index];
        assert init[index + 1..] + [last] == rows[index + 1..];
      } else {
        assert init + [last] == rows;
      }
    }
  }

  /**
   * The state of the form page. Rows are values: the page copies the array
   * before an edit, and the old array is never read again.
   */
  class Form {
    var components: seq<Row>
    var totalAmount: string
    var desiredIntensity: string
    var mixType: MixType
    var unitConcentration: string
    var unitQuantity: string
    var error: string

    /** The page never shows fewer than three rows. */
    ghost predicate Valid()
      reads this
    {
      |components| >= 3
    }

    /** Three empty rows ranked 1, 2 and 3; every field empty; standard mode. */
    constructor ()
      ensures Valid()
      ensures components == [Row("", 1), Row("", 2), Row("", 3)]
      ensures totalAmount == "" && desiredIntensity == "" && mixType == Standard
      ensures unitConcentration == "" && unitQuantity == "" && error == ""
    {
      components := [Row("", 1), Row("", 2), Row("", 3)];
      totalAmount, desiredIntensity, mixType := "", "", Standard;
      unitConcentration, unitQuantity, error := "", "", "";
    }

    /** Appends an empty row ranked one past the old number of rows. */
    method AddComponent()
      requires Valid()
      modifies this`components
      ensures Valid()
      ensures components == old(components) + [Row("", |old(components)| + 1)]
    {
      components := components + [Row("", |components| + 1)];
    }

    /**
     * Removes the row at index when there are more than three rows; with
     * three rows, or an index out of range, nothing changes.
     */
    method RemoveComponent(index: int)
      requires Valid()
      modifies this`components
      ensures Valid()
      ensures |old(components)| > 3 && 0 <= index < |old(components)| ==>
                components == old(components)[..index] + old(components)[index + 1..]
      ensures !(|old(components)| > 3 && 0 <= index < |old(components)|) ==> components == old(components)
    {
      if |components| > 3 {
        KeepOthersDropsIndex(components, index);
        components := KeepOthers(components, index);
      }
    }

    /** Sets one field of the row at index; every other row and field stays as it was. */
    method UpdateComponent(index: nat, edit: Edit)
      requires Valid() && index < |components|
      modifies this`components
      ensures Valid()
      ensures components == old(components)[index := Apply(old(components)[index], edit)]
    {
      var row := components[index];
      components := components[index := Apply(row, edit)];
    }

    /**
     * The submit handler up to the request: clears the error, runs the checks
     * in order and stops at the first failure with its message, or returns
     * the request body it would send.
     */
    method Submit() returns (sent: Option<Payload>)
      modifies this`error
      ensures var v := Validate(totalAmount, desiredIntensity, unitConcentration, unitQuantity, components, mixType);
              && (v.Ok? ==> sent == Some(v.value) && error == "")
              && (v.Err? ==> sent == None && error == Message(v.error))
      ensures sent.None? <==> error != ""
    {
      error := "";
      var totalText, desiredText, rows, mode := totalAmount, desiredIntensity, components, mixType;
      ghost var fields := CheckFields(totalText, desiredText, unitConcentration, unitQuantity);
      ghost var verdict := Validate(totalText, desiredText, unitConcentration, unitQuantity, rows, mode);
      var total := ParseFloat(totalText);
      var desired := ParseFloat(desiredText);
      if total.None? || total.value <= 0.0 {
        assert fields == Err(BadTotal);
        assert verdict == Err(BadTotal);
        error := Message(BadTotal);
        return None;
      }
      if desired.None? {
        assert fields == Err(BadDesired);
        assert verdict == Err(BadDesired);
        error := Message(BadDesired);
        return None;
      }
      if Trim(unitConcentration) == "" || Trim(unitQuantity) == "" {
        assert fields == Err(MissingUnits);
        assert verdict == Err(MissingUnits);
        error := Message(MissingUnits);
        return None;
      }
      assert fields == Ok((total.value, desired.value));
      var failure := FindBadRow(rows, mode);
      if failure.Some? {
        assert verdict == Err(BadComponent(failure.value.0, failure.value.1));
        error := Message(BadComponent(failure.value.0, failure.value.1));
        return None;
      }
      sent := Some(BuildPayload(rows, total.value, desired.value, mode));
      assert verdict == Ok(sent.value);
    }
  }

  /**
   * Removing a row and adding one can leave two rows with the same rank: the
   * new row is ranked by the number of rows, not by the ranks in use.
   */
  method RemoveThenAddRepeatsARank() returns (ranks: seq<int>)
    ensures ranks == [2, 3, 4, 4]
  {
    var form := new Form();
    form.AddComponent();
    assert form.components == [Row("", 1), Row("", 2), Row("", 3), Row("", 4)];
    form.RemoveComponent(0);
    assert form.components == [Row("", 2), Row("", 3), Row("", 4)];
    form.AddComponent();
    var rows := form.components;
    assert rows == [Row("", 2), Row("", 3), Row("", 4), Row("", 4)];
    ranks := [rows[0].priority, rows[1].priority, rows[2].priority, rows[3].priority];
  }
}
