/** What preflight proves about the camera's properties before any permit exists, and what a
    permit may then write. */
module Preflight {
  import opened Wrappers
  import opened Wire
  import opened Utf16
  import opened Descriptor
  import opened Structs

  // ---------- authorization ----------

  /** Operations and writable properties of the verified profile, and the descriptors collected
      during preflight. */
  datatype Authorization = Authorization(
    operations: set<U16>,
    writableProperties: set<U16>,
    properties: map<U16, PropDesc>)

  /** Descriptors by property code; a later one replaces an earlier one. */
  function ByCode(descriptors: seq<PropDesc>): map<U16, PropDesc> {
    if descriptors == [] then map[]
    else
      var last := descriptors[|descriptors| - 1];
      ByCode(descriptors[..|descriptors| - 1])[last.propertyCode := last]
  }

  lemma {:induction false} ByCodeMeaning(descriptors: seq<PropDesc>, code: U16)
    ensures code in ByCode(descriptors) <==> exists d :: d in descriptors && d.propertyCode == code
    ensures code in ByCode(descriptors) ==>
              ByCode(descriptors)[code] in descriptors && ByCode(descriptors)[code].propertyCode == code
  {
    if descriptors != [] {
      ByCodeMeaning(descriptors[..|descriptors| - 1], code);
      assert descriptors == descriptors[..|descriptors| - 1] + [descriptors[|descriptors| - 1]];
    }
  }

  /** `validate_property_candidate`. */
  predicate PropertyAllowed(a: Authorization, property: U16, data: Bytes) {
    && property in a.writableProperties
    && property in a.properties
    && Accepts(a.properties[property], data)
  }

  // ---------- the profile's requirements ----------

  datatype RequiredType = AnyType | Exact(code: U16)

  datatype StaticForm =
    | NoStaticForm
    | StaticEnumeration(values: seq<int>)
    | StaticRange(minimum: int, maximum: int, step: int)

  datatype Requirement = Requirement(
    code: U16,
    dataType: RequiredType,
    writable: bool,
    staticForm: Option<StaticForm>)

  datatype PreflightOperation =
    | BackupRestore | RawConversion | RawRecoveryFetch | RawRecoveryCleanup | SimulationAccess | SimulationWrite

  datatype Profile = Profile(
    operation: PreflightOperation,
    verified: bool,
    firmware: Text,
    minimumBatteryPercent: nat,
    allowedUsbModes: seq<U32>,
    requiredOperations: seq<U16>,
    requiredProperties: seq<Requirement>)

  /** What the camera answers to a descriptor read: the descriptor's bytes, the structural
      `GeneralError` followed by the outcome of reading the value instead, or another failure. */
  datatype Answer = Served(bytes: Bytes) | Refused(value: Option<Bytes>) | Failed

  // ---------- static shapes ----------

  /** `narrow` in `static_form`: signed datatypes take any value, unsigned ones no negative. */
  function Narrow(t: DataType, value: int): Option<PropValue> {
    if t.WireSize().None? then None
    else if t.Signed() then Some(Int(value))
    else if value < 0 then None
    else Some(UInt(value))
  }

  function NarrowAll(t: DataType, values: seq<int>): Option<seq<PropValue>> {
    if values == [] then Some([])
    else
      match (NarrowAll(t, values[..|values| - 1]), Narrow(t, values[|values| - 1]))
      case (Some(before), Some(last)) => Some(before + [last])
      case _ => None
  }

  /** `static_form`. */
  function FormOf(t: DataType, form: StaticForm): Option<PropForm> {
    match form
    case NoStaticForm => Some(NoForm)
    case StaticEnumeration(values) =>
      (match NarrowAll(t, values)
       case Some(all) => Some(Enumeration(all))
       case None => None)
    case StaticRange(minimum, maximum, step) =>
      match (Narrow(t, minimum), Narrow(t, maximum), Narrow(t, step))
      case (Some(lo), Some(hi), Some(st)) => Some(Range(lo, hi, st))
      case _ => None
  }

  /** `descriptor_from_static`. */
  function DescriptorFromStatic(q: Requirement, form: StaticForm, live: Bytes): Option<PropDesc> {
    if !q.writable || q.dataType.AnyType? then None
    else
      match TypeFromCode(q.dataType.code)
      case None => None
      case Some(t) =>
        if t.WireSize().None? && !t.StringType? then None
        else
          match FormOf(t, form)
          case None => None
          case Some(f) => FromStatic(q.code, t, f, live)
  }

  // ---------- collecting descriptors ----------

  /** `validate_descriptor`. */
  predicate DescriptorMeets(q: Requirement, d: PropDesc) {
    && d.propertyCode == q.code
    && (q.dataType.Exact? ==> d.dataType.Code() == q.dataType.code)
    && (q.writable ==> d.writable)
  }

  /** `validate_value_shape`. */
  predicate ValueShapeHolds(q: Requirement, live: Bytes) {
    && !q.writable
    && match q.dataType
       case AnyType => live != []
       case Exact(code) =>
         match TypeFromCode(code)
         case None => false
         case Some(t) =>
           match t.WireSize()
           case Some(width) => |live| == width
           case None =>
             && t.StringType?
             && match ParseString(live)
                case Fail => false
                case Done(_, rest) => rest == []
  }

  /** Preflight fails, goes on without a descriptor, or keeps one. */
  datatype Verdict = Refuse | Skip | Keep(descriptor: PropDesc)

  function VerdictOn(q: Requirement, answer: Answer): Verdict {
    match answer
    case Failed => Refuse
    case Served(bytes) =>
      (match Decode(bytes)
       case Some(d) => if DescriptorMeets(q, d) then Keep(d) else Refuse
       case None => Refuse)
    case Refused(None) => Refuse
    case Refused(Some(live)) =>
      match q.staticForm
      case None => if ValueShapeHolds(q, live) then Skip else Refuse
      case Some(form) =>
        match DescriptorFromStatic(q, form, live)
        case Some(d) => Keep(d)
        case None => Refuse
  }

  // ---------- what the verdicts mean ----------

  /** A number the profile writes down, as a value of this scalar type: signed for odd codes,
      unsigned, so not negative, for even ones. */
  predicate IsNumber(v: PropValue, n: int, t: DataType) {
    t.Code() <= 10 && if t.Code() % 2 == 1 then v == Int(n) else n >= 0 && v == UInt(n)
  }

  predicate AreNumbers(vs: seq<PropValue>, ns: seq<int>, t: DataType) {
    |vs| == |ns| && forall i | 0 <= i < |ns| :: IsNumber(vs[i], ns[i], t)
  }

  predicate IsStaticForm(f: PropForm, form: StaticForm, t: DataType) {
    match form
    case NoStaticForm => f == NoForm
    case StaticEnumeration(ns) => f.Enumeration? && AreNumbers(f.values, ns, t)
    case StaticRange(lo, hi, st) =>
      f.Range? && IsNumber(f.minimum, lo, t) && IsNumber(f.maximum, hi, t) && IsNumber(f.step, st, t)
  }

  lemma NarrowIsExact(t: DataType, n: int, v: PropValue)
    ensures Narrow(t, n) == Some(v) <==> IsNumber(v, n, t)
  {}

  lemma {:induction false} NarrowAllIsExact(t: DataType, ns: seq<int>, vs: seq<PropValue>)
    ensures NarrowAll(t, ns) == Some(vs) <==> AreNumbers(vs, ns, t)
    decreases ns
  {
    hide Narrow, IsNumber;
    if ns != [] && vs != [] {
      var before, last := vs[..|vs| - 1], vs[|vs| - 1];
      NarrowAllIsExact(t, ns[..|ns| - 1], before);
      NarrowIsExact(t, ns[|ns| - 1], last);
      assert vs == before + [last];
      assert AreNumbers(vs, ns, t) <==> AreNumbers(before, ns[..|ns| - 1], t) && IsNumber(last, ns[|ns| - 1], t);
    }
  }

  lemma FormIsExact(t: DataType, form: StaticForm, f: PropForm)
    ensures FormOf(t, form) == Some(f) <==> IsStaticForm(f, form, t)
  {
    hide Narrow, NarrowAll, IsNumber, AreNumbers;
    match form
    case NoStaticForm =>
    case StaticEnumeration(ns) => if f.Enumeration? { NarrowAllIsExact(t, ns, f.values); }
    case StaticRange(lo, hi, st) =>
      if f.Range? {
        NarrowIsExact(t, lo, f.minimum);
        NarrowIsExact(t, hi, f.maximum);
        NarrowIsExact(t, st, f.step);
      }
  }

  /** The camera served this descriptor and it is what the requirement asks for. */
  predicate ServedFor(q: Requirement, answer: Answer, d: PropDesc) {
    && answer.Served? && Decode(answer.bytes) == Some(d) && d.propertyCode == q.code
    && (q.dataType.Exact? ==> d.dataType.Code() == q.dataType.code)
    && (q.writable ==> d.writable)
  }

  /** The camera has no descriptor, the profile declares a shape for a writable property that is
      no array, and the live bytes spell a value of that type and form. */
  predicate ShapedFor(q: Requirement, answer: Answer, d: PropDesc) {
    && answer.Refused? && answer.value.Some?
    && q.staticForm.Some? && q.writable && q.dataType == Exact(d.dataType.Code())
    && (d.dataType.Code() <= 10 || d.dataType.Code() == 0xFFFF)
    && d.propertyCode == q.code && d.writable && d.factoryDefault == d.current
    && IsStaticForm(d.form, q.staticForm.value, d.dataType)
    && Spells(answer.value.value, d.current, d.dataType) && InForm(d.current, d.form)
  }

  /** The camera has no descriptor, and a property that is only read has some value, or one of
      the exact type that the profile names, which is no array. */
  ghost predicate ReadableFor(q: Requirement, answer: Answer) {
    && answer.Refused? && answer.value.Some? && q.staticForm.None? && !q.writable
    && (q.dataType.AnyType? ==> answer.value.value != [])
    && (q.dataType.Exact? ==> exists t: DataType, v ::
          t.Code() == q.dataType.code && (t.Code() <= 10 || t.Code() == 0xFFFF) && Spells(answer.value.value, v, t))
  }

  lemma ServedIsExact(q: Requirement, answer: Answer)
    requires !answer.Refused?
    ensures !VerdictOn(q, answer).Skip?
    ensures forall d :: VerdictOn(q, answer) == Keep(d) <==> ServedFor(q, answer, d)
  {
    hide Decode;
  }

  lemma ShapedIsExact(q: Requirement, answer: Answer)
    requires answer.Refused? && answer.value.Some? && q.staticForm.Some?
    ensures !VerdictOn(q, answer).Skip?
    ensures forall d :: VerdictOn(q, answer) == Keep(d) <==> ShapedFor(q, answer, d)
  {
    hide FromStatic, FormOf, IsStaticForm, Spells, InForm;
    forall d ensures VerdictOn(q, answer) == Keep(d) <==> ShapedFor(q, answer, d) {
      if q.dataType.Exact? {
        TypeCodes(d.dataType, q.dataType.code);
        FormIsExact(d.dataType, q.staticForm.value, d.form);
        StaticIsExact(q.code, d.dataType, d.form, answer.value.value, d);
        var decided := VerdictOn(q, answer);
        if decided == Keep(d) {
          TypeCodes(TypeFromCode(q.dataType.code).value, q.dataType.code);
          StaticKeepsTerms(q, q.staticForm.value, answer.value.value);
        }
      }
    }
  }

  lemma StaticKeepsTerms(q: Requirement, form: StaticForm, live: Bytes)
    requires DescriptorFromStatic(q, form, live).Some?
    ensures var d := DescriptorFromStatic(q, form, live).value;
            && q.dataType == Exact(d.dataType.Code()) && d.propertyCode == q.code
            && FormOf(d.dataType, form) == Some(d.form)
            && (d.dataType.WireSize().Some? || d.dataType.StringType?)
            && FromStatic(q.code, d.dataType, d.form, live) == Some(d)
  {
    hide FormOf, ParseValue, DeclaredValuesHold;
    TypeCodes(StringType, q.dataType.code);
  }

  lemma StaticIsExact(code: U16, t: DataType, form: PropForm, live: Bytes, d: PropDesc)
    ensures FromStatic(code, t, form, live) == Some(d) <==>
              && d == PropDesc(code, t, true, d.current, d.current, form)
              && Spells(live, d.current, t) && InForm(d.current, form)
  {
    hide ParseValue, Spells, ValueIsInRange;
    if ParseValue(live, t).Done? && ParseValue(live, t).rest == [] { ParsedSpells(live, t); }
    if Spells(live, d.current, t) { SpelledParses(live, d.current, t); }
  }

  lemma ReadableIsExact(q: Requirement, answer: Answer)
    requires answer.Refused? && (answer.value.None? || q.staticForm.None?)
    ensures !VerdictOn(q, answer).Keep?
    ensures VerdictOn(q, answer).Skip? <==> ReadableFor(q, answer)
  {
    hide Spells, ParseString, ParseLe;
    if answer.value.Some? && q.dataType.Exact? && TypeFromCode(q.dataType.code).Some? {
      var t := TypeFromCode(q.dataType.code).value;
      TypeCodes(t, q.dataType.code);
      if t.WireSize().Some? || t.StringType? { ShapeIsSpelled(t, answer.value.value); }
    }
    forall t: DataType ensures TypeFromCode(t.Code()) == Some(t) { TypeCodes(t, 0); }
  }

  lemma ShapeIsSpelled(t: DataType, live: Bytes)
    requires t.WireSize().Some? || t.StringType?
    ensures (exists v :: Spells(live, v, t)) <==>
              if t.WireSize().Some? then |live| == t.WireSize().value else ParseString(live).Done? && ParseString(live).rest == []
  {
    if ParseValue(live, t).Done? {
      ParsedInhabits(live, t);
      if ParseValue(live, t).rest == [] { ParsedSpells(live, t); }
    }
    if v :| Spells(live, v, t) { SpelledParses(live, v, t); }
    hide Spells;
  }

  /** What preflight makes of one answer, for every requirement: it keeps the descriptor served,
      or the one of the profile's own shape; goes on without one; and refuses all else. */
  lemma VerdictIsExact(q: Requirement, answer: Answer)
    ensures forall d :: VerdictOn(q, answer) == Keep(d) <==> ServedFor(q, answer, d) || ShapedFor(q, answer, d)
    ensures VerdictOn(q, answer).Skip? <==> ReadableFor(q, answer)
  {
    hide VerdictOn;
    if !answer.Refused? { ServedIsExact(q, answer); }
    else if answer.value.Some? && q.staticForm.Some? { ShapedIsExact(q, answer); }
    else { ReadableIsExact(q, answer); }
    hide Spells, IsStaticForm, InForm, Decode;
  }

  /** Every requirement passed, and these are the descriptors kept, in order. */
  ghost predicate Collected(requirements: seq<Requirement>, answers: seq<Answer>, descriptors: seq<PropDesc>)
    requires |requirements| == |answers|
  {
    if requirements == [] then descriptors == []
    else
      var last := |requirements| - 1;
      match VerdictOn(requirements[last], answers[last])
      case Refuse => false
      case Skip => Collected(requirements[..last], answers[..last], descriptors)
      case Keep(d) =>
        && descriptors != [] && descriptors[|descriptors| - 1] == d
        && Collected(requirements[..last], answers[..last], descriptors[..|descriptors| - 1])
  }

  /** `collect_property_descriptors`: it succeeds exactly when no requirement is refused. */
  method CollectDescriptors(requirements: seq<Requirement>, answers: seq<Answer>)
      returns (descriptors: Option<seq<PropDesc>>)
    requires |requirements| == |answers|
    ensures descriptors.Some? ==> Collected(requirements, answers, descriptors.value)
    ensures descriptors.None? <==> exists i | 0 <= i < |requirements| :: VerdictOn(requirements[i], answers[i]).Refuse?
  {
    hide VerdictOn;
    var kept := [];
    for i := 0 to |requirements|
      invariant Collected(requirements[..i], answers[..i], kept)
      invariant forall j | 0 <= j < i :: !VerdictOn(requirements[j], answers[j]).Refuse?
    {
      assert requirements[..i + 1][..i] == requirements[..i] && answers[..i + 1][..i] == answers[..i];
      match VerdictOn(requirements[i], answers[i]) {
        case Refuse => return None;
        case Skip =>
        case Keep(d) =>
          assert (kept + [d])[..|kept|] == kept;
          kept := kept + [d];
      }
    }
    assert requirements[..|requirements|] == requirements && answers[..|answers|] == answers;
    descriptors := Some(kept);
  }

  /** A kept descriptor meets its requirement, its current value inhabits its datatype and, when
      it is writable, the encoding of that value is an accepted candidate. */
  lemma KeptDescriptorIsUsable(q: Requirement, answer: Answer)
    requires VerdictOn(q, answer).Keep?
    ensures var d := VerdictOn(q, answer).descriptor;
            && DescriptorMeets(q, d)
            && Inhabits(d.current, d.dataType)
            && (d.writable ==> Accepts(d, PutValue(d.current, d.dataType, [])))
  {
    var d := VerdictOn(q, answer).descriptor;
    match answer {
      case Served(bytes) =>
        DecodedIsWellFormed(bytes);
        if d.writable { LiveValueCanBeWrittenBack(bytes); }
      case Refused(value) =>
        TypeCodes(d.dataType, q.dataType.code);
        StaticLiveValueCanBeWrittenBack(q.code, d.dataType, d.form, value.value);
    }
  }

  /** Each kept descriptor comes from a requirement, and each requirement's descriptor is kept. */
  lemma {:induction false} CollectedMeaning(requirements: seq<Requirement>, answers: seq<Answer>, descriptors: seq<PropDesc>)
    requires |requirements| == |answers| && Collected(requirements, answers, descriptors)
    ensures forall i | 0 <= i < |requirements| :: !VerdictOn(requirements[i], answers[i]).Refuse?
    ensures forall d :: d in descriptors <==>
              exists i | 0 <= i < |requirements| :: VerdictOn(requirements[i], answers[i]) == Keep(d)
  {
    hide VerdictOn;
    if requirements != [] {
      var last := |requirements| - 1;
      var verdict := VerdictOn(requirements[last], answers[last]);
      var before := if verdict.Keep? then descriptors[..|descriptors| - 1] else descriptors;
      CollectedMeaning(requirements[..last], answers[..last], before);
      assert verdict.Keep? ==> descriptors == before + [verdict.descriptor];
      forall d
        ensures d in descriptors <==>
                  exists i | 0 <= i < |requirements| :: VerdictOn(requirements[i], answers[i]) == Keep(d)
      {
        if d in before {
          var i :| 0 <= i < last && VerdictOn(requirements[..last][i], answers[..last][i]) == Keep(d);
          assert VerdictOn(requirements[i], answers[i]) == Keep(d);
        }
        if i :| 0 <= i < |requirements| && VerdictOn(requirements[i], answers[i]) == Keep(d) && i < last {
          assert VerdictOn(requirements[..last][i], answers[..last][i]) == Keep(d);
        }
      }
    }
  }

  // ---------- what a permit may write ----------

  function AuthorizationFor(profile: Profile, descriptors: seq<PropDesc>): Authorization {
    Authorization(
      set op | op in profile.requiredOperations,
      set q | q in profile.requiredProperties && q.writable :: q.code,
      ByCode(descriptors))
  }

  /** Requirements on one property agree on whether it is writable. The profile schema demands
      more: that no property is required twice. */
  predicate Consistent(profile: Profile) {
    forall q, r | q in profile.requiredProperties && r in profile.requiredProperties && q.code == r.code ::
      q.writable == r.writable
  }

  /** A write is allowed only for a property the profile requires writable, and only with a value
      in the form of a descriptor kept for that property in this preflight: one the camera served
      as writable, or the profile's static shape that the live value was seen to meet. */
  lemma OnlyProvenPropertiesAreWritable(profile: Profile, answers: seq<Answer>, descriptors: seq<PropDesc>, code: U16, data: Bytes)
    requires |profile.requiredProperties| == |answers| && Collected(profile.requiredProperties, answers, descriptors)
    requires PropertyAllowed(AuthorizationFor(profile, descriptors), code, data)
    ensures exists q :: q in profile.requiredProperties && q.code == code && q.writable
    ensures exists i, d, v | 0 <= i < |answers| ::
              && VerdictOn(profile.requiredProperties[i], answers[i]) == Keep(d)
              && d.propertyCode == code && d.writable
              && Spells(data, v, d.dataType) && InForm(v, d.form)
  {
    CollectedMeaning(profile.requiredProperties, answers, descriptors);
    ByCodeMeaning(descriptors, code);
    var d := ByCode(descriptors)[code];
    AcceptanceIsExact(d, data);
    var i :| 0 <= i < |answers| && VerdictOn(profile.requiredProperties[i], answers[i]) == Keep(d);
    var v :| Spells(data, v, d.dataType) && InForm(v, d.form);
  }

  /** Requirement `i` is about this property and its descriptor was kept. */
  predicate KeptAt(requirements: seq<Requirement>, answers: seq<Answer>, code: U16, i: nat)
    requires |requirements| == |answers|
  {
    i < |requirements| && requirements[i].code == code && VerdictOn(requirements[i], answers[i]).Keep?
  }

  predicate LastKeptAt(requirements: seq<Requirement>, answers: seq<Answer>, code: U16, i: nat)
    requires |requirements| == |answers|
  {
    KeptAt(requirements, answers, code, i) && forall j | i < j < |requirements| :: !KeptAt(requirements, answers, code, j)
  }

  /** Of the descriptors kept for this property the last is writable. */
  predicate LastKeptIsWritable(requirements: seq<Requirement>, answers: seq<Answer>, code: U16)
    requires |requirements| == |answers|
  {
    exists i: nat | i < |requirements| && LastKeptAt(requirements, answers, code, i) ::
      VerdictOn(requirements[i], answers[i]).descriptor.writable
  }

  lemma {:induction false} LastKeptIsUsed(requirements: seq<Requirement>, answers: seq<Answer>, descriptors: seq<PropDesc>, code: U16, i: nat)
    requires |requirements| == |answers| && Collected(requirements, answers, descriptors)
    requires LastKeptAt(requirements, answers, code, i)
    ensures code in ByCode(descriptors) && ByCode(descriptors)[code] == VerdictOn(requirements[i], answers[i]).descriptor
  {
    hide VerdictOn, DescriptorMeets;
    var last := |requirements| - 1;
    var verdict := VerdictOn(requirements[last], answers[last]);
    if verdict.Keep? { KeptHasCode(requirements[last], answers[last]); }
    if i < last {
      assert !KeptAt(requirements, answers, code, last);
      var before := if verdict.Keep? then descriptors[..|descriptors| - 1] else descriptors;
      forall j | i < j < last ensures !KeptAt(requirements[..last], answers[..last], code, j) {
        assert !KeptAt(requirements, answers, code, j);
      }
      LastKeptIsUsed(requirements[..last], answers[..last], before, code, i);
    }
  }

  /** A descriptor in the map is the last one kept for its code. */
  lemma KeptInMap(requirements: seq<Requirement>, answers: seq<Answer>, descriptors: seq<PropDesc>, code: U16) returns (i: nat)
    requires |requirements| == |answers| && Collected(requirements, answers, descriptors)
    requires code in ByCode(descriptors)
    ensures i < |requirements| && LastKeptAt(requirements, answers, code, i)
  {
    CollectedMeaning(requirements, answers, descriptors);
    ByCodeMeaning(descriptors, code);
    hide VerdictOn, Collected;
    var d := ByCode(descriptors)[code];
    var k :| 0 <= k < |requirements| && VerdictOn(requirements[k], answers[k]) == Keep(d);
    KeptHasCode(requirements[k], answers[k]);
    i := SomeLastKept(requirements, answers, code, k);
  }

  lemma KeptHasCode(q: Requirement, answer: Answer)
    requires VerdictOn(q, answer).Keep?
    ensures VerdictOn(q, answer).descriptor.propertyCode == q.code
  {
    KeptDescriptorIsUsable(q, answer);
  }

  lemma SomeLastKept(requirements: seq<Requirement>, answers: seq<Answer>, code: U16, k: nat) returns (i: nat)
    requires |requirements| == |answers| && KeptAt(requirements, answers, code, k)
    ensures LastKeptAt(requirements, answers, code, i)
    decreases |requirements| - k
  {
    if j: nat :| k < j < |requirements| && KeptAt(requirements, answers, code, j) {
      i := SomeLastKept(requirements, answers, code, j);
    } else {
      i := k;
    }
  }

  /** A writable requirement that passed kept a descriptor. */
  lemma WritableIsKept(q: Requirement, answer: Answer)
    requires q.writable && !VerdictOn(q, answer).Refuse?
    ensures VerdictOn(q, answer).Keep?
  {}

  /** For every profile and whatever the camera answered: once preflight passed, the live value
      of a writable requirement can be written back exactly when the last descriptor kept for
      that property is writable. */
  lemma RestoreIsExact(profile: Profile, answers: seq<Answer>, descriptors: seq<PropDesc>, q: Requirement)
    requires |profile.requiredProperties| == |answers| && Collected(profile.requiredProperties, answers, descriptors)
    requires q in profile.requiredProperties && q.writable
    ensures var a := AuthorizationFor(profile, descriptors);
            && q.code in a.properties
            && var d := a.properties[q.code];
            && Inhabits(d.current, d.dataType)
            && (PropertyAllowed(a, q.code, PutValue(d.current, d.dataType, [])) <==>
                  LastKeptIsWritable(profile.requiredProperties, answers, q.code))
  {
    var requirements := profile.requiredProperties;
    CollectedMeaning(requirements, answers, descriptors);
    var k :| 0 <= k < |requirements| && requirements[k] == q;
    WritableIsKept(q, answers[k]);
    var i := SomeLastKept(requirements, answers, q.code, k);
    LastKeptIsUsed(requirements, answers, descriptors, q.code, i);
    KeptDescriptorIsUsable(requirements[i], answers[i]);
    hide VerdictOn, Inhabits, Collected;
    forall j: nat | j < |requirements| && LastKeptAt(requirements, answers, q.code, j) ensures j == i {
      assert KeptAt(requirements, answers, q.code, j) && KeptAt(requirements, answers, q.code, i);
    }
  }

  /** So for a profile from the schema, preflight succeeding means that every writable
      requirement can be restored. */
  lemma LiveValuesCanBeRestored(profile: Profile, answers: seq<Answer>, descriptors: seq<PropDesc>, q: Requirement)
    requires |profile.requiredProperties| == |answers| && Collected(profile.requiredProperties, answers, descriptors)
    requires Consistent(profile) && q in profile.requiredProperties && q.writable
    ensures var a := AuthorizationFor(profile, descriptors);
            && q.code in a.properties
            && var d := a.properties[q.code];
               Inhabits(d.current, d.dataType) && PropertyAllowed(a, q.code, PutValue(d.current, d.dataType, []))
  {
    var requirements := profile.requiredProperties;
    RestoreIsExact(profile, answers, descriptors, q);
    CollectedMeaning(requirements, answers, descriptors);
    var k :| 0 <= k < |requirements| && requirements[k] == q;
    WritableIsKept(q, answers[k]);
    var i := SomeLastKept(requirements, answers, q.code, k);
    KeptDescriptorIsUsable(requirements[i], answers[i]);
    assert requirements[i] in requirements;
  }

  /** What the schema demands of a profile implies that agreement. */
  lemma UniqueCodesAreConsistent(profile: Profile)
    requires forall i, j | 0 <= i < j < |profile.requiredProperties| ::
               profile.requiredProperties[i].code != profile.requiredProperties[j].code
    ensures Consistent(profile)
  {}

  // ---------- the decisions before any descriptor is read ----------

  datatype Identity = Identity(manufacturer: Text, model: Text)

  datatype RawLayout = RawLayout(
    profileCode: Text,
    headerPadding: nat,
    declaredFieldCount: U16,
    totalLength: nat,
    fields: seq<string>)

  datatype RawState = Still | Movie

  datatype RawDescriptor = RawDescriptor(
    writeVerified: bool,
    evidenceManifests: seq<string>,
    cameraState: Option<RawState>,
    read: RawLayout,
    write: Option<RawLayout>)

  datatype Capability = Capability(firmware: Text, rawConversion: Option<RawDescriptor>)

  datatype Camera = Camera(
    vendor: U16,
    product: U16,
    identity: Option<Identity>,
    profiles: seq<Profile>,
    capabilities: seq<Capability>)

  /** What preflight knows or reads before the descriptors; serial numbers only by digest. */
  datatype Facts = Facts(
    native: bool,
    vendor: U16,
    product: U16,
    info: DeviceInfo,
    usbMode: U32,
    batteryPercent: nat,
    serialBinding: Option<string>,
    serialDigest: string)

  predicate IsFor(p: Profile, operation: PreflightOperation, firmware: Text) {
    p.operation == operation && p.firmware == firmware
  }

  function Matching(profiles: seq<Profile>, operation: PreflightOperation, firmware: Text): seq<Profile> {
    if profiles == [] then []
    else (if IsFor(profiles[0], operation, firmware) then [profiles[0]] else []) + Matching(profiles[1..], operation, firmware)
  }

  /** `select_profile`: the only match, and verified. */
  function SelectProfile(profiles: seq<Profile>, operation: PreflightOperation, firmware: Text): Option<Profile> {
    var matches := Matching(profiles, operation, firmware);
    if |matches| == 1 && matches[0].verified then Some(matches[0]) else None
  }

  /** A profile is selected exactly when it is verified and the only one for the operation and
      this exact firmware. */
  lemma SelectionIsExact(profiles: seq<Profile>, operation: PreflightOperation, firmware: Text, p: Profile)
    ensures SelectProfile(profiles, operation, firmware) == Some(p) <==>
              exists i | 0 <= i < |profiles| ::
                && profiles[i] == p && p.verified && IsFor(p, operation, firmware)
                && forall j | 0 <= j < |profiles| && j != i :: !IsFor(profiles[j], operation, firmware)
  {
    OnlyMatch(profiles, operation, firmware, p);
  }

  predicate OnlyAt(profiles: seq<Profile>, operation: PreflightOperation, firmware: Text, i: nat)
    requires i < |profiles|
  {
    && IsFor(profiles[i], operation, firmware)
    && forall j | 0 <= j < |profiles| && j != i :: !IsFor(profiles[j], operation, firmware)
  }

  lemma {:induction false} NoMatch(profiles: seq<Profile>, operation: PreflightOperation, firmware: Text)
    ensures Matching(profiles, operation, firmware) == [] <==>
              forall j | 0 <= j < |profiles| :: !IsFor(profiles[j], operation, firmware)
    decreases profiles
  {
    if profiles != [] {
      NoMatch(profiles[1..], operation, firmware);
      assert forall j | 0 < j < |profiles| :: profiles[j] == profiles[1..][j - 1];
    }
  }

  /** A first profile of another kind only shifts the positions. */
  lemma ShiftedMatch(profiles: seq<Profile>, operation: PreflightOperation, firmware: Text, p: Profile)
    requires profiles != [] && !IsFor(profiles[0], operation, firmware)
    ensures (exists i | 0 <= i < |profiles| :: profiles[i] == p && OnlyAt(profiles, operation, firmware, i)) <==>
            (exists i | 0 <= i < |profiles[1..]| :: profiles[1..][i] == p && OnlyAt(profiles[1..], operation, firmware, i))
  {
    hide IsFor;
    var rest := profiles[1..];
    if i :| 0 <= i < |profiles| && profiles[i] == p && OnlyAt(profiles, operation, firmware, i) {
      forall j | 0 <= j < |rest| && j != i - 1 ensures !IsFor(rest[j], operation, firmware) {
        assert rest[j] == profiles[j + 1];
      }
      assert rest[i - 1] == p && OnlyAt(rest, operation, firmware, i - 1);
    }
    if i :| 0 <= i < |rest| && rest[i] == p && OnlyAt(rest, operation, firmware, i) {
      forall j | 0 <= j < |profiles| && j != i + 1 ensures !IsFor(profiles[j], operation, firmware) {
        if j > 0 { assert profiles[j] == rest[j - 1]; }
      }
      assert profiles[i + 1] == p && OnlyAt(profiles, operation, firmware, i + 1);
    }
  }

  /** A first profile of the right kind is the only one when the rest has none. */
  lemma FirstMatches(profiles: seq<Profile>, operation: PreflightOperation, firmware: Text, p: Profile)
    requires profiles != [] && IsFor(profiles[0], operation, firmware)
    ensures (exists i | 0 <= i < |profiles| :: profiles[i] == p && OnlyAt(profiles, operation, firmware, i)) <==>
            profiles[0] == p && forall j | 0 <= j < |profiles[1..]| :: !IsFor(profiles[1..][j], operation, firmware)
  {
    hide IsFor;
    var rest := profiles[1..];
    if i :| 0 <= i < |profiles| && profiles[i] == p && OnlyAt(profiles, operation, firmware, i) {
      forall j | 0 <= j < |rest| ensures !IsFor(rest[j], operation, firmware) {
        assert rest[j] == profiles[j + 1];
      }
    }
    if forall j | 0 <= j < |rest| :: !IsFor(rest[j], operation, firmware) {
      forall j | 0 < j < |profiles| ensures !IsFor(profiles[j], operation, firmware) {
        assert profiles[j] == rest[j - 1];
      }
      assert OnlyAt(profiles, operation, firmware, 0);
    }
  }

  lemma {:induction false} OnlyMatch(profiles: seq<Profile>, operation: PreflightOperation, firmware: Text, p: Profile)
    ensures Matching(profiles, operation, firmware) == [p] <==>
              exists i | 0 <= i < |profiles| :: profiles[i] == p && OnlyAt(profiles, operation, firmware, i)
    decreases profiles
  {
    hide OnlyAt, IsFor;
    if profiles != [] {
      var rest := profiles[1..];
      var tail := Matching(rest, operation, firmware);
      NoMatch(rest, operation, firmware);
      OnlyMatch(rest, operation, firmware, p);
      if IsFor(profiles[0], operation, firmware) {
        FirstMatches(profiles, operation, firmware, p);
        if [profiles[0]] + tail == [p] { assert |tail| == 0 && ([profiles[0]] + tail)[0] == profiles[0]; }
      } else {
        ShiftedMatch(profiles, operation, firmware, p);
        assert [] + tail == tail;
      }
    }
  }

  /** `find_exact`: the first capability profile of this firmware. */
  function SelectCapability(capabilities: seq<Capability>, firmware: Text): Option<Capability> {
    if capabilities == [] then None
    else if capabilities[0].firmware == firmware then Some(capabilities[0])
    else SelectCapability(capabilities[1..], firmware)
  }

  predicate FirstOf(capabilities: seq<Capability>, firmware: Text, i: nat) {
    && i < |capabilities| && capabilities[i].firmware == firmware
    && forall j | 0 <= j < i :: capabilities[j].firmware != firmware
  }

  lemma {:induction false} CapabilityIsExact(capabilities: seq<Capability>, firmware: Text, c: Capability)
    ensures SelectCapability(capabilities, firmware) == Some(c) <==>
              exists i: nat | i < |capabilities| :: capabilities[i] == c && FirstOf(capabilities, firmware, i)
    decreases capabilities
  {
    if capabilities != [] && capabilities[0].firmware != firmware {
      var rest := capabilities[1..];
      CapabilityIsExact(rest, firmware, c);
      if i: nat :| i < |rest| && rest[i] == c && FirstOf(rest, firmware, i) {
        assert capabilities[i + 1] == c && FirstOf(capabilities, firmware, i + 1);
      }
      if i: nat :| i < |capabilities| && capabilities[i] == c && FirstOf(capabilities, firmware, i) {
        assert i > 0 && rest[i - 1] == c;
        forall j | 0 <= j < i - 1 ensures rest[j].firmware != firmware { assert rest[j] == capabilities[j + 1]; }
        assert FirstOf(rest, firmware, i - 1);
      }
    } else if capabilities != [] {
      if capabilities[0] == c { assert FirstOf(capabilities, firmware, 0); }
    }
  }

  /** `validate_device_info`. */
  predicate InfoMeets(camera: Camera, profile: Profile, info: DeviceInfo) {
    && camera.identity == Some(Identity(info.manufacturer, info.model))
    && info.serialNumber != [] && info.deviceVersion != []
    && (forall op | op in profile.requiredOperations :: op in info.operationsSupported)
    && (forall q | q in profile.requiredProperties :: q.code in info.devicePropertiesSupported)
  }

  /** The whole decision, in the order `run` makes it. */
  function Decide(camera: Camera, operation: PreflightOperation, facts: Facts): Option<(Profile, Capability)> {
    if !facts.native then None
    else if facts.vendor != camera.vendor || facts.product != camera.product then None
    else
      match SelectProfile(camera.profiles, operation, facts.info.deviceVersion)
      case None => None
      case Some(profile) =>
        match SelectCapability(camera.capabilities, facts.info.deviceVersion)
        case None => None
        case Some(capability) =>
          if !InfoMeets(camera, profile, facts.info) then None
          else if facts.usbMode !in profile.allowedUsbModes || facts.batteryPercent < profile.minimumBatteryPercent then None
          else if facts.serialBinding.Some? && facts.serialBinding.value != facts.serialDigest then None
          else Some((profile, capability))
  }

  /** The device says it is this camera and supports what the profile requires. */
  predicate Advertises(camera: Camera, profile: Profile, info: DeviceInfo) {
    && camera.identity.Some?
    && info.manufacturer == camera.identity.value.manufacturer && info.model == camera.identity.value.model
    && |info.serialNumber| > 0 && |info.deviceVersion| > 0
    && (forall i | 0 <= i < |profile.requiredOperations| :: profile.requiredOperations[i] in info.operationsSupported)
    && (forall i | 0 <= i < |profile.requiredProperties| ::
          profile.requiredProperties[i].code in info.devicePropertiesSupported)
  }

  lemma InfoIsExact(camera: Camera, profile: Profile, info: DeviceInfo)
    ensures InfoMeets(camera, profile, info) <==> Advertises(camera, profile, info)
  {
    if Advertises(camera, profile, info) {
      forall op | op in profile.requiredOperations ensures op in info.operationsSupported {
        var i :| 0 <= i < |profile.requiredOperations| && profile.requiredOperations[i] == op;
      }
      forall q | q in profile.requiredProperties ensures q.code in info.devicePropertiesSupported {
        var i :| 0 <= i < |profile.requiredProperties| && profile.requiredProperties[i] == q;
      }
    }
  }

  /** Preflight decides for a profile and a capability exactly when the camera is the physical
      model it claims to be, that profile is the only one for the operation and this firmware and
      a verified one, that capability is the first of this firmware, the camera advertises
      everything the profile needs, and mode, battery and serial fit. */
  lemma DecisionIsExact(camera: Camera, operation: PreflightOperation, facts: Facts, profile: Profile, capability: Capability)
    ensures Decide(camera, operation, facts) == Some((profile, capability)) <==>
              && facts.native && facts.vendor == camera.vendor && facts.product == camera.product
              && (facts.serialBinding.Some? ==> facts.serialBinding.value == facts.serialDigest)
              && (exists i | 0 <= i < |camera.profiles| ::
                    camera.profiles[i] == profile && OnlyAt(camera.profiles, operation, facts.info.deviceVersion, i))
              && (exists k: nat | k < |camera.capabilities| ::
                    camera.capabilities[k] == capability && FirstOf(camera.capabilities, facts.info.deviceVersion, k))
              && profile.verified && Advertises(camera, profile, facts.info)
              && facts.usbMode in profile.allowedUsbModes && profile.minimumBatteryPercent <= facts.batteryPercent
  {
    var firmware := facts.info.deviceVersion;
    CapabilityIsExact(camera.capabilities, firmware, capability);
    OnlyMatch(camera.profiles, operation, firmware, profile);
    InfoIsExact(camera, profile, facts.info);
    hide InfoMeets, Advertises, OnlyAt, FirstOf, SelectCapability;
    var matches := Matching(camera.profiles, operation, firmware);
    if |matches| == 1 { assert matches == [matches[0]]; }
  }
}
