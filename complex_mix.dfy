/**
 * The multi-component endpoint (POST /complex). It only validates: the
 * fields components, m and S must be present, and m must lie strictly
 * between the smallest and the largest component intensity `a`; on success
 * it echoes the request without computing any quantities. The same handler
 * exists twice in the repository (backend/routes and routes); this model
 * covers both.
 */
module ComplexMix {
  import opened Wrappers
  import opened Json

  const MissingDataMessage := "Nedostaju podaci"
  const OutOfRangeMessage := "Prosječni intenzitet mora biti između najmanje i najveće vrijednosti"
  const PendingMessage := "Složeni račun – logika će biti dodana"

  /** The "target" object of the success body. */
  datatype Target = Target(m: Json, s: Json)

  datatype Response =
    | Accepted(message: string, componentsReceived: Json, target: Target)  // status 200
    | Rejected(error: string)                                            // status 400
    | Crashed                                                            // an uncaught exception: status 500

  /** c['a'] for one component, as a number Python can compare; None when c['a'] raises or is not a number. */
  function IntensityOf(c: Json): (r: Option<real>)
    ensures r.Some? <==> c.JObj? && "a" in c.fields && (c.fields["a"].JNum? || c.fields["a"].JBool?)
    ensures r.Some? && c.fields["a"].JNum? ==> r.value == c.fields["a"].n
  {
    match c
    case JObj(fields) => if "a" in fields then AsNumber(fields["a"]) else None
    case _ => None
  }

  /** values = [c['a'] for c in components]; None when the comprehension or a later comparison raises. */
  function Intensities(components: Json): (r: Option<seq<real>>)
    ensures r.Some? <==> components.JArr? && forall i | 0 <= i < |components.items| :: IntensityOf(components.items[i]).Some?
    ensures r.Some? ==> |r.value| == |components.items|
    ensures r.Some? ==> forall i | 0 <= i < |r.value| :: IntensityOf(components.items[i]) == Some(r.value[i])
  {
    match components
    case JArr(items) =>
      if forall i | 0 <= i < |items| :: IntensityOf(items[i]).Some? then
        Some(seq(|items|, i requires 0 <= i < |items| => IntensityOf(items[i]).value))
      else None
    case _ => None
  }

  /** min(values): the least element. */
  function MinOf(vs: seq<real>): (r: real)
    requires |vs| > 0
    ensures r in vs
    ensures forall i | 0 <= i < |vs| :: r <= vs[i]
  {
    if |vs| == 1 then vs[0]
    else
      var rest := MinOf(vs[1..]);
      if vs[0] <= rest then vs[0] else rest
  }

  /** max(values): the greatest element. */
  function MaxOf(vs: seq<real>): (r: real)
    requires |vs| > 0
    ensures r in vs
    ensures forall i | 0 <= i < |vs| :: vs[i] <= r
  {
    if |vs| == 1 then vs[0]
    else
      var rest := MaxOf(vs[1..]);
      if rest <= vs[0] then vs[0] else rest
  }

  /** The presence check: components truthy, m and S not None. */
  predicate Present(data: map<string, Json>) {
    Truthy(Get(data, "components")) && Get(data, "m") != JNull && Get(data, "S") != JNull
  }

  /** The handler, for a request whose JSON body is the object data. */
  function ComplexMix(data: map<string, Json>): (r: Response)
    ensures r == Rejected(MissingDataMessage) <==> !Present(data)
    ensures r.Accepted? ==> r == Accepted(PendingMessage, Get(data, "components"), Target(Get(data, "m"), Get(data, "S")))
  {
    var components := Get(data, "components");
    var m := Get(data, "m");
    var s := Get(data, "S");
    if !Truthy(components) || m == JNull || s == JNull then Rejected(MissingDataMessage)
    else
      match (Intensities(components), AsNumber(m))
      case (Some(values), Some(target)) =>
        if !(MinOf(values) < target < MaxOf(values)) then Rejected(OutOfRangeMessage)
        else Accepted(PendingMessage, components, Target(m, s))
      case _ => Crashed
  }

  /** m lies strictly between the least and the greatest value exactly when some value is below m and some above. */
  lemma StrictlyInside(vs: seq<real>, m: real)
    requires |vs| > 0
    ensures MinOf(vs) < m < MaxOf(vs) <==>
              (exists i | 0 <= i < |vs| :: vs[i] < m) && (exists j | 0 <= j < |vs| :: m < vs[j])
  {
    var lo, hi := MinOf(vs), MaxOf(vs);
    if (exists i | 0 <= i < |vs| :: vs[i] < m) && (exists j | 0 <= j < |vs| :: m < vs[j]) {
      var i :| 0 <= i < |vs| && vs[i] < m;
      var j :| 0 <= j < |vs| && m < vs[j];
      assert lo <= vs[i] && vs[j] <= hi;
    }
    if lo < m < hi {
      var i :| 0 <= i < |vs| && vs[i] == lo;
      var j :| 0 <= j < |vs| && vs[j] == hi;
    }
  }

  /** The request is accepted exactly when it is present, well formed and m lies strictly inside the range. */
  lemma AcceptedInRange(data: map<string, Json>)
    ensures ComplexMix(data).Accepted? <==>
              && Present(data)
              && Intensities(Get(data, "components")).Some?
              && AsNumber(Get(data, "m")).Some?
              && MinOf(Intensities(Get(data, "components")).value)
                 < AsNumber(Get(data, "m")).value
                 < MaxOf(Intensities(Get(data, "components")).value)
  {
  }

  /**
   * A present, well-formed request is accepted exactly when some component is
   * weaker than m and some component is stronger.
   */
  lemma AcceptedIff(data: map<string, Json>)
    ensures ComplexMix(data).Accepted? <==>
              && Present(data)
              && Intensities(Get(data, "components")).Some?
              && AsNumber(Get(data, "m")).Some?
              && var vs, m := Intensities(Get(data, "components")).value, AsNumber(Get(data, "m")).value;
                 && (exists i | 0 <= i < |vs| :: vs[i] < m)
                 && (exists j | 0 <= j < |vs| :: m < vs[j])
  {
    AcceptedInRange(data);
    var components := Get(data, "components");
    if Present(data) && Intensities(components).Some? && AsNumber(Get(data, "m")).Some? {
      assert |Intensities(components).value| > 0;
      StrictlyInside(Intensities(components).value, AsNumber(Get(data, "m")).value);
    }
  }

  /**
   * Every response a request can get: the missing-data error when the
   * presence check fails; an uncaught exception exactly when the check passes
   * but an intensity or m is not a number; otherwise the range error when m
   * is not strictly between the least and the greatest intensity.
   */
  lemma ComplexMixOutcome(data: map<string, Json>)
    ensures ComplexMix(data) == Crashed <==>
              Present(data) && (Intensities(Get(data, "components")).None? || AsNumber(Get(data, "m")).None?)
    ensures Present(data) && Intensities(Get(data, "components")).Some? && AsNumber(Get(data, "m")).Some?
            && !(MinOf(Intensities(Get(data, "components")).value)
                 < AsNumber(Get(data, "m")).value
                 < MaxOf(Intensities(Get(data, "components")).value))
            ==> ComplexMix(data) == Rejected(OutOfRangeMessage)
    ensures ComplexMix(data).Accepted? || ComplexMix(data).Crashed?
            || ComplexMix(data).error == MissingDataMessage || ComplexMix(data).error == OutOfRangeMessage
  {
  }

  /**
   * One component, or components that all have the same intensity, leave no
   * room strictly between the minimum and the maximum: never accepted.
   */
  lemma EqualIntensitiesRejected(data: map<string, Json>)
    requires Intensities(Get(data, "components")).Some?
    requires var vs := Intensities(Get(data, "components")).value;
             forall i, j | 0 <= i < |vs| && 0 <= j < |vs| :: vs[i] == vs[j]
    ensures !ComplexMix(data).Accepted?
  {
    AcceptedIff(data);
  }

  /**
   * S is only tested for presence: replacing it by any other present value
   * changes nothing but the echoed S.
   */
  lemma TotalNeverChecked(data: map<string, Json>, s: Json)
    requires Get(data, "S") != JNull && s != JNull
    ensures var r, r' := ComplexMix(data), ComplexMix(data["S" := s]);
            && (r.Accepted? <==> r'.Accepted?)
            && (r.Accepted? ==> r' == r.(target := r.target.(s := s)))
            && (!r.Accepted? ==> r' == r)
  {
    var data' := data["S" := s];
    assert Get(data', "components") == Get(data, "components");
    assert Get(data', "m") == Get(data, "m");
  }
}
