/** Mutation permits: which state-changing commands may reach the camera, and when. */
module Permits {
  import opened Wrappers
  import opened Wire
  import opened Utf16
  import opened Container
  import opened Descriptor
  import opened Preflight

  const U64_MAX: nat := 0xFFFF_FFFF_FFFF_FFFF
  const FUJI_RAW_CONVERSION_PROFILE: U16 := 0xD185

  /** Bus, address and interface of the device a permit was issued for. */
  datatype Binding = Binding(bus: nat, address: nat, interface: nat)

  // ---------- authorization ----------

  predicate IsUpload(code: CommandCode) {
    code.FujiSendObjectInfo? || code.FujiSendObject?
  }

  /** `MutationAuthorization::validate`. */
  predicate Authorizes(a: Authorization, profileValidated: bool, code: CommandCode, params: seq<U32>, data: Option<Bytes>) {
    && code.Code() in a.operations
    && (IsUpload(code) ==> profileValidated)
    && (code.SetDevicePropValue? ==>
          params != [] && params[0] <= 0xFFFF && data.Some? && PropertyAllowed(a, params[0], data.value))
  }

  /** A property write is authorized exactly when the profile lists it, the property was read as
      writable during preflight, and the bytes spell a value of its type inside its form. */
  lemma PropertyWriteIsExact(a: Authorization, flag: bool, params: seq<U32>, data: Option<Bytes>)
    ensures Authorizes(a, flag, SetDevicePropValue, params, data) <==>
              && 0x1016 in a.operations
              && params != [] && data.Some?
              && params[0] in a.writableProperties && params[0] in a.properties
              && var d := a.properties[params[0]];
              && d.writable
              && exists v :: Spells(data.value, v, d.dataType) && InForm(v, d.form)
  {
    hide Accepts, Spells, InForm;
    if params != [] && data.Some? && params[0] in a.properties {
      AcceptanceIsExact(a.properties[params[0]], data.value);
    }
  }

  /** The profile and the answers of preflight let this property be written with these bytes:
      some requirement wants the property writable, and the last descriptor kept for it is
      writable and its form holds the value that the bytes spell. */
  ghost predicate WriteProven(requirements: seq<Requirement>, answers: seq<Answer>, property: nat, data: Bytes)
    requires |requirements| == |answers|
  {
    && (exists q :: q in requirements && q.code == property && q.writable)
    && property <= 0xFFFF
    && exists i: nat, v | i < |requirements| && LastKeptAt(requirements, answers, property, i) ::
         && var d := VerdictOn(requirements[i], answers[i]).descriptor;
         && d.writable && Spells(data, v, d.dataType) && InForm(v, d.form)
  }

  /** What a permit from a passed preflight authorizes, command by wire code: the operation is
      one the profile requires; an upload also needs the RAW profile check, and a property write
      one property that was proven with this value. */
  lemma MutationIsExact(profile: Profile, answers: seq<Answer>, descriptors: seq<PropDesc>, flag: bool,
                        code: CommandCode, params: seq<U32>, data: Option<Bytes>)
    requires |profile.requiredProperties| == |answers| && Collected(profile.requiredProperties, answers, descriptors)
    ensures Authorizes(AuthorizationFor(profile, descriptors), flag, code, params, data) <==>
              && code.Code() in profile.requiredOperations
              && (code.Code() in {0x900C, 0x900D} ==> flag)
              && (code.Code() == 0x1016 ==>
                    params != [] && data.Some? && WriteProven(profile.requiredProperties, answers, params[0], data.value))
  {
    hide Collected, Accepts, WriteProven, ByCode;
    if code.SetDevicePropValue? && params != [] && params[0] <= 0xFFFF && data.Some? {
      PropertyWriteIsProven(profile, answers, descriptors, params[0], data.value);
    } else if code.SetDevicePropValue? && params != [] && data.Some? {
      NotAProperty(profile.requiredProperties, answers, params[0], data.value);
    }
  }

  lemma NotAProperty(requirements: seq<Requirement>, answers: seq<Answer>, property: nat, data: Bytes)
    requires |requirements| == |answers| && property > 0xFFFF
    ensures !WriteProven(requirements, answers, property, data)
  {}

  lemma PropertyWriteIsProven(profile: Profile, answers: seq<Answer>, descriptors: seq<PropDesc>, property: U16, data: Bytes)
    requires |profile.requiredProperties| == |answers| && Collected(profile.requiredProperties, answers, descriptors)
    ensures PropertyAllowed(AuthorizationFor(profile, descriptors), property, data) <==>
              WriteProven(profile.requiredProperties, answers, property, data)
  {
    hide Collected, Accepts, VerdictOn, Spells, InForm, ByCode;
    var requirements := profile.requiredProperties;
    var a := AuthorizationFor(profile, descriptors);
    if property in a.properties {
      var i := KeptInMap(requirements, answers, descriptors, property);
      LastKeptIsUsed(requirements, answers, descriptors, property, i);
      AcceptanceIsExact(a.properties[property], data);
    }
    forall i: nat | i < |requirements| && LastKeptAt(requirements, answers, property, i)
      ensures property in a.properties && a.properties[property] == VerdictOn(requirements[i], answers[i]).descriptor
    {
      LastKeptIsUsed(requirements, answers, descriptors, property, i);
    }
  }

  // ---------- the live RAW conversion envelope ----------

  function HexDigit(c: Scalar): Option<nat> {
    if '0' as int <= c <= '9' as int then Some(c - '0' as int)
    else if 'a' as int <= c <= 'f' as int then Some(c - 'a' as int + 10)
    else if 'A' as int <= c <= 'F' as int then Some(c - 'A' as int + 10)
    else None
  }

  function HexDigits(t: Text): Option<nat> {
    if t == [] then Some(0)
    else
      match (HexDigits(t[..|t| - 1]), HexDigit(t[|t| - 1]))
      case (Some(high), Some(low)) => if high * 16 + low > 0xFFFF_FFFF then None else Some(high * 16 + low)
      case _ => None
  }

  /** `u32::from_str_radix(_, 16)`: an optional plus sign, then at least one hex digit, within
      32 bits. */
  function ParseHex(t: Text): Option<nat> {
    var digits := if t != [] && t[0] == '+' as int then t[1..] else t;
    if digits == [] then None else HexDigits(digits)
  }

  /** The value of a hex number of any length, both cases allowed. */
  function HexValue(t: Text): nat
    requires AllHex(t)
  {
    if t == [] then 0 else 16 * HexValue(t[..|t| - 1]) + DigitValue(t[|t| - 1])
  }

  predicate AllHex(t: Text) {
    forall i | 0 <= i < |t| :: IsHexChar(t[i])
  }

  predicate IsHexChar(c: Scalar) {
    48 <= c <= 57 || 65 <= c <= 70 || 97 <= c <= 102
  }

  function DigitValue(c: Scalar): nat
    requires IsHexChar(c)
  {
    if c <= 57 then c - 48 else if c <= 70 then c - 55 else c - 87
  }

  lemma {:induction false} HexDigitsIsExact(t: Text)
    ensures HexDigits(t) == if AllHex(t) && HexValue(t) <= 0xFFFF_FFFF then Some(HexValue(t)) else None
  {
    if t != [] {
      var front, last := t[..|t| - 1], t[|t| - 1];
      HexDigitsIsExact(front);
      assert AllHex(t) <==> AllHex(front) && IsHexChar(last);
    }
  }

  /** A number parses exactly when it is hex digits after an optional plus sign, and fits 32
      bits. */
  lemma ParseHexIsExact(t: Text, n: nat)
    ensures ParseHex(t) == Some(n) <==>
              exists d: Text :: d != [] && (t == d || t == [43] + d) && AllHex(d) && n == HexValue(d) <= 0xFFFF_FFFF
  {
    if t != [] && t[0] == 43 {
      HexDigitsIsExact(t[1..]);
      assert t == [43] + t[1..] && !IsHexChar(t[0]);
    } else {
      HexDigitsIsExact(t);
    }
  }

  /** `validate_raw_conversion_live_envelope`. */
  predicate LiveEnvelope(bytes: Bytes, profileCode: nat, headerPadding: nat, fieldCount: nat, fieldSlots: nat) {
    match ParseLe(bytes, 2)
    case Fail => false
    case Done(count, s1) =>
      && count < 0x8000 && count == fieldCount
      && match ParseExact(s1)
         case Fail => false
         case Done(text, s2) => ParseHex(text) == Some(profileCode) && |s2| == headerPadding + fieldSlots * 4
  }

  /** The envelope check passes exactly on a 15-bit field count, the profile code spelled in hex
      as an exact string, and a body of the declared size. */
  lemma LiveEnvelopeIsExact(bytes: Bytes, profileCode: nat, headerPadding: nat, fieldCount: nat, fieldSlots: nat)
    ensures LiveEnvelope(bytes, profileCode, headerPadding, fieldCount, fieldSlots) <==>
              && fieldCount < 0x8000
              && exists text: Text, body: Bytes ::
                   && ExactFits(text) && ParseHex(text) == Some(profileCode)
                   && |body| == headerPadding + fieldSlots * 4
                   && bytes == PutLe(fieldCount, 2, PutExact(text, body))
  {
    WidthBounds();
    if LiveEnvelope(bytes, profileCode, headerPadding, fieldCount, fieldSlots) {
      PutParseLe(bytes, 2);
      var s1 := ParseLe(bytes, 2).rest;
      PutParseExact(s1);
      var text, body := ParseExact(s1).value, ParseExact(s1).rest;
      assert bytes == PutLe(fieldCount, 2, PutExact(text, body));
    }
    if fieldCount < 0x8000 && exists text: Text, body: Bytes ::
         && ExactFits(text) && ParseHex(text) == Some(profileCode) && |body| == headerPadding + fieldSlots * 4
         && bytes == PutLe(fieldCount, 2, PutExact(text, body)) {
      var text: Text, body: Bytes :|
        && ExactFits(text) && ParseHex(text) == Some(profileCode) && |body| == headerPadding + fieldSlots * 4
        && bytes == PutLe(fieldCount, 2, PutExact(text, body));
      ParsePutLe(fieldCount, 2, PutExact(text, body));
      ParsePutExact(text, body);
    }
  }

  function HexChar(digit: nat): (c: Scalar)
    requires digit < 16
    ensures HexDigit(c) == Some(digit)
  {
    if digit < 10 then '0' as int + digit else 'a' as int + digit - 10
  }

  /** `format!("{:x}", n)`: lower case, no leading zeros. */
  function HexText(n: nat): (t: Text)
    ensures t != []
  {
    if n < 16 then [HexChar(n)] else HexText(n / 16) + [HexChar(n % 16)]
  }

  lemma {:induction false} HexTextDigits(n: U32)
    ensures HexDigits(HexText(n)) == Some(n) && HexDigit(HexText(n)[0]).Some?
    decreases n
  {
    var t := HexText(n);
    if n < 16 {
      assert t[..0] == [];
    } else {
      HexTextDigits(n / 16);
      assert t[..|t| - 1] == HexText(n / 16) && t[|t| - 1] == HexChar(n % 16);
      assert t[0] == HexText(n / 16)[0];
    }
  }

  /** Lower-case digits without leading zeros. */
  predicate IsLowerHex(t: Text) {
    t != [] && AllHex(t) && (|t| > 1 ==> t[0] != 48) && forall i | 0 <= i < |t| :: t[i] < 65 || t[i] > 70
  }

  /** The one such text for each number. */
  lemma {:induction false} HexTextIsExact(n: nat, t: Text)
    ensures t == HexText(n) <==> IsLowerHex(t) && HexValue(t) == n
    decreases |t|
  {
    if t == [] { return; }
    var front, last := t[..|t| - 1], t[|t| - 1];
    assert t == front + [last];
    LastHexDigit(last, n % 16);
    if front == [] {
      OneHexDigit(n, last);
    } else {
      HexTextIsExact(n / 16, front);
      HexTextIsExact(0, front);
      LongerHexText(n, front, last);
      LongerLowerHex(front, last);
    }
    hide HexText, IsLowerHex, HexValue, AllHex, IsHexChar, DigitValue;
  }

  lemma LastHexDigit(c: Scalar, digit: nat)
    requires digit < 16
    ensures c == HexChar(digit) <==> IsHexChar(c) && (c < 65 || c > 70) && DigitValue(c) == digit
    ensures IsHexChar(c) ==> DigitValue(c) < 16
  {}

  lemma OneHexDigit(n: nat, c: Scalar)
    ensures [c] == HexText(n) <==> IsLowerHex([c]) && HexValue([c]) == n
  {
    if n >= 16 {
      assert HexText(n)[..|HexText(n)| - 1] == HexText(n / 16);
    } else {
      LastHexDigit(c, n);
    }
    assert [c][..0] == [];
  }

  lemma LongerHexText(n: nat, front: Text, last: Scalar)
    requires front != []
    ensures front + [last] == HexText(n) <==> n >= 16 && front == HexText(n / 16) && last == HexChar(n % 16)
  {
    var t := front + [last];
    assert t[..|t| - 1] == front && t[|t| - 1] == last;
    if n >= 16 { assert HexText(n)[..|HexText(n)| - 1] == HexText(n / 16); }
  }

  /** One more digit: what was before it is no zero on its own. */
  lemma LongerLowerHex(front: Text, last: Scalar)
    requires front != []
    ensures IsLowerHex(front + [last]) <==>
              IsLowerHex(front) && front != [48] && IsHexChar(last) && (last < 65 || last > 70)
    ensures AllHex(front + [last]) <==> AllHex(front) && IsHexChar(last)
    ensures AllHex(front) && IsHexChar(last) ==> HexValue(front + [last]) == 16 * HexValue(front) + DigitValue(last)
    ensures HexText(0) == [48]
  {
    var t := front + [last];
    assert t[..|t| - 1] == front && t[|t| - 1] == last && t[0] == front[0];
    assert forall i | 0 <= i < |front| :: t[i] == front[i];
    if |front| == 1 { assert front == [front[0]]; }
  }

  /** The code a descriptor spells is the code the live payload is parsed to. */
  lemma HexTextParses(n: U32)
    ensures ParseHex(HexText(n)) == Some(n)
  {
    HexTextDigits(n);
    assert HexDigit('+' as int) == None;
  }

  /** `validate_raw_conversion_read_fingerprint` of the capability profile. */
  predicate FingerprintMatches(c: Capability, profileCode: U32, headerPadding: nat, fieldCount: U16, fields: seq<string>, length: nat) {
    && c.rawConversion.Some?
    && var d := c.rawConversion.value;
    && d.writeVerified && d.evidenceManifests != []
    && d.read == RawLayout(HexText(profileCode), headerPadding, fieldCount, length, fields)
  }

  /** `validate_raw_conversion_signature` of the capability profile. */
  predicate SignatureMatches(c: Capability, profileCode: U32, headerPadding: nat, fields: seq<string>, length: nat) {
    && c.rawConversion.Some?
    && var d := c.rawConversion.value;
    && d.writeVerified && d.evidenceManifests != [] && d.cameraState.None?
    && d.write.Some?
    && var layout := d.write.value;
    && layout.profileCode == HexText(profileCode) && layout.headerPadding == headerPadding
    && layout.declaredFieldCount == |fields| && layout.fields == fields && layout.totalLength == length
  }

  /** The text is how this code is spelled in a layout. */
  predicate SpellsCode(t: Text, code: U32) {
    IsLowerHex(t) && HexValue(t) == code
  }

  /** Both parts of the fingerprint check pass exactly when the RAW conversion is verified for
      writing by named evidence, each field of its read layout is the one at hand, and the
      payload is that many fields, the code in hex and a body of one word a field after the
      padding. */
  lemma FingerprintIsExact(c: Capability, profileCode: U32, headerPadding: nat, fieldCount: U16, fields: seq<string>, bytes: Bytes)
    ensures FingerprintMatches(c, profileCode, headerPadding, fieldCount, fields, |bytes|)
            && LiveEnvelope(bytes, profileCode, headerPadding, fieldCount, |fields|) <==>
              && c.rawConversion.Some?
              && var d := c.rawConversion.value;
              && d.writeVerified && |d.evidenceManifests| > 0
              && SpellsCode(d.read.profileCode, profileCode) && d.read.headerPadding == headerPadding
              && d.read.declaredFieldCount == fieldCount < 0x8000 && d.read.fields == fields && d.read.totalLength == |bytes|
              && exists text: Text, body: Bytes ::
                   && ExactFits(text) && ParseHex(text) == Some(profileCode) && |body| == headerPadding + |fields| * 4
                   && bytes == PutLe(fieldCount, 2, PutExact(text, body))
  {
    LiveEnvelopeIsExact(bytes, profileCode, headerPadding, fieldCount, |fields|);
    if c.rawConversion.Some? { HexTextIsExact(profileCode, c.rawConversion.value.read.profileCode); }
    hide LiveEnvelope, ExactFits, ParseHex, PutLe, PutExact, HexText, IsLowerHex, HexValue;
  }

  /** The profile check's part: verified for writing by named evidence and for no one state of
      the camera, and each field of the write layout is the one at hand. */
  lemma SignatureIsExact(c: Capability, profileCode: U32, headerPadding: nat, fields: seq<string>, length: nat)
    ensures SignatureMatches(c, profileCode, headerPadding, fields, length) <==>
              && c.rawConversion.Some?
              && var d := c.rawConversion.value;
              && d.writeVerified && |d.evidenceManifests| > 0 && d.cameraState == None
              && exists layout ::
                   && d.write == Some(layout)
                   && SpellsCode(layout.profileCode, profileCode) && layout.headerPadding == headerPadding
                   && layout.declaredFieldCount == |fields| && layout.fields == fields && layout.totalLength == length
  {
    if c.rawConversion.Some? && c.rawConversion.value.write.Some? {
      HexTextIsExact(profileCode, c.rawConversion.value.write.value.profileCode);
    }
    hide HexText, IsLowerHex, HexValue;
  }

  /** What a passed fingerprint check says about the payload itself: its length is the verified
      one, and it is the field count, the profile code in hex and a body of one word a field
      after the padding. */
  lemma FingerprintPinsPayload(c: Capability, profileCode: U32, headerPadding: nat, fieldCount: U16, fields: seq<string>, bytes: Bytes)
    requires FingerprintMatches(c, profileCode, headerPadding, fieldCount, fields, |bytes|)
    requires LiveEnvelope(bytes, profileCode, headerPadding, fieldCount, |fields|)
    ensures exists text: Text, body: Bytes ::
              && ExactFits(text) && ParseHex(text) == ParseHex(c.rawConversion.value.read.profileCode) == Some(profileCode)
              && |body| == headerPadding + |c.rawConversion.value.read.fields| * 4
              && |bytes| == c.rawConversion.value.read.totalLength
              && bytes == PutLe(fieldCount, 2, PutExact(text, body))
  {
    HexTextParses(profileCode);
    LiveEnvelopeIsExact(bytes, profileCode, headerPadding, fieldCount, |fields|);
  }

  // ---------- permits ----------

  datatype Check = FingerprintChecked | ProfileChecked

  /** A profile check came after a fingerprint check. */
  predicate ProfileAfterFingerprint(checks: seq<Check>) {
    exists i, j | 0 <= i < j < |checks| :: checks[i].FingerprintChecked? && checks[j].ProfileChecked?
  }

  class MutationPermit {
    const id: nat
    const binding: Binding
    const operation: PreflightOperation
    const authorization: Authorization
    const capability: Capability
    var fingerprintValidated: bool
    var profileValidated: bool

    /** The checks that passed on this permit, in order. */
    ghost var checks: seq<Check>

    ghost predicate Valid()
      reads this
    {
      && (fingerprintValidated <==> FingerprintChecked in checks)
      && (profileValidated <==> ProfileChecked in checks)
      && (profileValidated ==> ProfileAfterFingerprint(checks))
    }

    constructor (id: nat, binding: Binding, operation: PreflightOperation, authorization: Authorization, capability: Capability)
      ensures Valid() && fresh(this) && checks == []
      ensures this.id == id && this.binding == binding && this.operation == operation
      ensures this.authorization == authorization && this.capability == capability && !fingerprintValidated && !profileValidated
    {
      this.id, this.binding, this.operation, this.authorization := id, binding, operation, authorization;
      this.capability := capability;
      fingerprintValidated, profileValidated := false, false;
      checks := [];
    }

    method ValidateReadFingerprint(profileCode: U32, headerPadding: nat, fieldCount: U16, fields: seq<string>, bytes: Bytes)
        returns (ok: bool)
      requires Valid()
      modifies this
      ensures Valid()
      ensures ok <==>
                && FingerprintMatches(capability, profileCode, headerPadding, fieldCount, fields, |bytes|)
                && LiveEnvelope(bytes, profileCode, headerPadding, fieldCount, |fields|)
      ensures checks == old(checks) + if ok then [FingerprintChecked] else []
    {
      if !FingerprintMatches(capability, profileCode, headerPadding, fieldCount, fields, |bytes|) { return false; }
      if !LiveEnvelope(bytes, profileCode, headerPadding, fieldCount, |fields|) { return false; }
      fingerprintValidated := true;
      ghost var before := checks;
      checks := checks + [FingerprintChecked];
      StillAfter(before, FingerprintChecked);
      return true;
    }

    method ValidateProfile(profileCode: U32, headerPadding: nat, fields: seq<string>, bytes: Bytes) returns (ok: bool)
      requires Valid()
      modifies this
      ensures Valid()
      ensures ok <==>
                && SignatureMatches(capability, profileCode, headerPadding, fields, |bytes|)
                && FingerprintChecked in old(checks)
                && PropertyAllowed(authorization, FUJI_RAW_CONVERSION_PROFILE, bytes)
      ensures checks == old(checks) + if ok then [ProfileChecked] else []
    {
      if !SignatureMatches(capability, profileCode, headerPadding, fields, |bytes|) { return false; }
      if !fingerprintValidated { return false; }
      if !PropertyAllowed(authorization, FUJI_RAW_CONVERSION_PROFILE, bytes) { return false; }
      ghost var i :| 0 <= i < |checks| && checks[i].FingerprintChecked?;
      ghost var before := checks;
      profileValidated := true;
      checks := checks + [ProfileChecked];
      assert checks[i].FingerprintChecked? && checks[|before|].ProfileChecked?;
      return true;
    }
  }

  lemma StillAfter(checks: seq<Check>, c: Check)
    ensures ProfileAfterFingerprint(checks) ==> ProfileAfterFingerprint(checks + [c])
  {
    if ProfileAfterFingerprint(checks) {
      var i, j :| 0 <= i < j < |checks| && checks[i].FingerprintChecked? && checks[j].ProfileChecked?;
      var d := checks + [c];
      assert d[i].FingerprintChecked? && d[j].ProfileChecked?;
    }
  }

  // ---------- the transport's side ----------

  /** Under what a container was written. */
  datatype Grant = Grant(id: nat, binding: Binding, authorization: Authorization, checks: seq<Check>)

  datatype Entry = Entry(code: CommandCode, params: seq<U32>, data: Option<Bytes>, grant: Option<Grant>)

  /** A state-changing container was written under a grant that covers it. */
  ghost predicate Justified(e: Entry, binding: Binding) {
    Risk(e.code).StateChanging? ==>
      && e.grant.Some?
      && var g := e.grant.value;
      && g.binding == binding
      && Authorizes(g.authorization, ProfileChecked in g.checks, e.code, e.params, e.data)
      && (IsUpload(e.code) ==> ProfileAfterFingerprint(g.checks))
  }

  /** The camera answers once for each property the selected profile requires. */
  predicate OneAnswerEach(camera: Camera, operation: PreflightOperation, facts: Option<Facts>, answers: seq<Answer>) {
    facts.Some? && Decide(camera, operation, facts.value).Some? ==>
      |answers| == |Decide(camera, operation, facts.value).value.0.requiredProperties|
  }

  class PtpGate {
    const binding: Binding
    const camera: Camera
    var nextPermitId: nat
    var activePermitId: Option<nat>

    /** Every container written, and for each permit that is no longer active, how many had
        been written when it ended. */
    ghost var written: seq<Entry>
    ghost var ended: map<nat, nat>

    ghost predicate Valid()
      reads this
    {
      && 1 <= nextPermitId <= U64_MAX
      && (activePermitId.Some? ==> 1 <= activePermitId.value == nextPermitId - 1 && activePermitId.value !in ended)
      && (forall id | 1 <= id < nextPermitId :: id in ended || activePermitId == Some(id))
      && (forall id | id in ended :: 1 <= id < nextPermitId && ended[id] <= |written|)
      && (forall k | 0 <= k < |written| :: Justified(written[k], binding))
      && (forall k, id | 0 <= k < |written| && id in ended && written[k].grant.Some? && written[k].grant.value.id == id ::
            k < ended[id])
    }

    constructor (binding: Binding, camera: Camera)
      ensures Valid() && fresh(this) && this.binding == binding && this.camera == camera
      ensures activePermitId.None? && written == [] && ended == map[] && nextPermitId == 1
    {
      this.binding, this.camera := binding, camera;
      nextPermitId, activePermitId := 1, None;
      written, ended := [], map[];
    }

    /** `is_active_for`. */
    predicate IsActive(permit: MutationPermit)
      reads this
    {
      activePermitId == Some(permit.id) && permit.binding == binding
    }

    method ClearMutationPermit()
      requires Valid()
      modifies this`activePermitId, this`ended
      ensures Valid() && activePermitId.None?
      ensures old(ended.Keys) <= ended.Keys && (forall id | id in old(ended) :: ended[id] == old(ended)[id])
      ensures old(activePermitId).Some? ==> old(activePermitId).value in ended
    {
      if activePermitId.Some? { ended := ended[activePermitId.value := |written|]; }
      activePermitId := None;
    }

    /** A fresh id becomes the active one; whatever was active before is superseded. */
    method ActivateMutationPermit() returns (id: Option<nat>)
      requires Valid()
      modifies this`nextPermitId, this`activePermitId, this`ended
      ensures Valid()
      ensures id.None? <==> old(nextPermitId) == U64_MAX
      ensures id.None? ==>
                activePermitId == old(activePermitId) && ended == old(ended) && nextPermitId == old(nextPermitId)
      ensures id.Some? ==>
                && activePermitId == id && id.value == old(nextPermitId) && id.value !in old(ended)
                && old(ended.Keys) <= ended.Keys && (forall k | k in old(ended) :: ended[k] == old(ended)[k])
                && (old(activePermitId).Some? ==> old(activePermitId).value in ended)
    {
      if nextPermitId == U64_MAX { return None; }
      if activePermitId.Some? { ended := ended[activePermitId.value := |written|]; }
      id := Some(nextPermitId);
      nextPermitId := nextPermitId + 1;
      activePermitId := id;
    }

    /** `preflight::run`: the old permit is cleared first, and only passing every decision and
        collecting every required descriptor issues a new one, bound to this device. No facts
        means that one of the reads failed. */
    method RunPreflight(operation: PreflightOperation, facts: Option<Facts>, answers: seq<Answer>)
        returns (permit: MutationPermit?, ghost descriptors: seq<PropDesc>)
      requires Valid() && OneAnswerEach(camera, operation, facts, answers)
      modifies this`nextPermitId, this`activePermitId, this`ended
      ensures Valid() && nextPermitId >= old(nextPermitId)
      ensures old(ended.Keys) <= ended.Keys && (forall id | id in old(ended) :: ended[id] == old(ended)[id])
      ensures old(activePermitId).Some? ==> old(activePermitId).value in ended
      ensures permit == null <==>
                || facts.None? || Decide(camera, operation, facts.value).None? || old(nextPermitId) == U64_MAX
                || exists i | 0 <= i < |answers| ::
                     VerdictOn(Decide(camera, operation, facts.value).value.0.requiredProperties[i], answers[i]).Refuse?
      ensures permit == null ==> activePermitId.None?
      ensures permit != null ==>
                && fresh(permit) && permit.Valid() && IsActive(permit) && permit.id !in ended
                && old(nextPermitId) <= permit.id < nextPermitId
                && permit.checks == [] && permit.operation == operation
                && var (profile, capability) := Decide(camera, operation, facts.value).value;
                && Collected(profile.requiredProperties, answers, descriptors)
                && permit.authorization == AuthorizationFor(profile, descriptors)
                && permit.capability == capability
    {
      hide Decide, AuthorizationFor, Collected, VerdictOn;
      ClearMutationPermit();
      descriptors := [];
      if facts.None? { return null, []; }
      var decided := Decide(camera, operation, facts.value);
      if decided.None? { return null, []; }
      var (profile, capability) := decided.value;
      var collected := CollectDescriptors(profile.requiredProperties, answers);
      if collected.None? { return null, []; }
      descriptors := collected.value;
      var id := ActivateMutationPermit();
      if id.None? { return null, []; }
      permit := new MutationPermit(id.value, binding, operation, AuthorizationFor(profile, collected.value), capability);
    }

    /** The two RAW checks are made through the transport, on the active permit only. */
    method CheckFingerprint(permit: MutationPermit, profileCode: U32, headerPadding: nat, fieldCount: U16,
                            fields: seq<string>, bytes: Bytes) returns (ok: bool)
      requires permit.Valid()
      modifies permit
      ensures permit.Valid()
      ensures ok <==>
                && IsActive(permit)
                && FingerprintMatches(permit.capability, profileCode, headerPadding, fieldCount, fields, |bytes|)
                && LiveEnvelope(bytes, profileCode, headerPadding, fieldCount, |fields|)
      ensures permit.checks == old(permit.checks) + if ok then [FingerprintChecked] else []
    {
      if !IsActive(permit) { return false; }
      ok := permit.ValidateReadFingerprint(profileCode, headerPadding, fieldCount, fields, bytes);
    }

    method CheckProfile(permit: MutationPermit, profileCode: U32, headerPadding: nat, fields: seq<string>, bytes: Bytes)
        returns (ok: bool)
      requires permit.Valid()
      modifies permit
      ensures permit.Valid()
      ensures ok <==>
                && IsActive(permit)
                && SignatureMatches(permit.capability, profileCode, headerPadding, fields, |bytes|)
                && FingerprintChecked in old(permit.checks)
                && PropertyAllowed(permit.authorization, FUJI_RAW_CONVERSION_PROFILE, bytes)
      ensures permit.checks == old(permit.checks) + if ok then [ProfileChecked] else []
    {
      if !IsActive(permit) { return false; }
      ok := permit.ValidateProfile(profileCode, headerPadding, fields, bytes);
    }

    /** The generic sender takes only read-only commands. */
    method SendReadOnly(code: CommandCode, params: seq<U32>, data: Option<Bytes>) returns (ok: bool)
      requires Valid()
      modifies this`written
      ensures Valid()
      ensures ok <==> Risk(code).ReadOnly?
      ensures written == old(written) + if ok then [Entry(code, params, data, None)] else []
    {
      if !Risk(code).ReadOnly? { return false; }
      Write(Entry(code, params, data, None));
      return true;
    }

    /** The mutating sender: the permit must be the active one for this device and authorize the
        command. A permit that was cleared or superseded is refused whatever it authorizes. */
    method SendMutating(permit: MutationPermit, code: CommandCode, params: seq<U32>, data: Option<Bytes>)
        returns (ok: bool, marksWrite: bool)
      requires Valid() && permit.Valid()
      modifies this`written
      ensures Valid()
      ensures ok <==>
                && Risk(code).StateChanging? && IsActive(permit)
                && Authorizes(permit.authorization, ProfileChecked in permit.checks, code, params, data)
      ensures permit.id in ended ==> !ok
      ensures marksWrite <==> ok && !permit.operation.SimulationAccess?
      ensures written == old(written) +
                if ok then [Entry(code, params, data, Some(Grant(permit.id, permit.binding, permit.authorization, permit.checks)))]
                else []
    {
      if !Risk(code).StateChanging? { return false, false; }
      if !IsActive(permit) { return false, false; }
      if !Authorizes(permit.authorization, permit.profileValidated, code, params, data) { return false, false; }
      marksWrite := !permit.operation.SimulationAccess?;
      Write(Entry(code, params, data, Some(Grant(permit.id, permit.binding, permit.authorization, permit.checks))));
      ok := true;
    }

    ghost method Write(e: Entry)
      requires Valid() && Justified(e, binding)
      requires e.grant.Some? ==> e.grant.value.id !in ended
      modifies this`written
      ensures Valid() && written == old(written) + [e]
    {
      written := written + [e];
    }
  }

  // ---------- runs ----------

  datatype Step =
    | StartPreflight(operation: PreflightOperation, facts: Option<Facts>, answers: seq<Answer>)
    | EndSession
    | CheckFingerprint(slot: nat, profileCode: U32, padding: nat, count: U16, fields: seq<string>, bytes: Bytes)
    | CheckProfile(slot: nat, profileCode: U32, padding: nat, fields: seq<string>, bytes: Bytes)
    | Read(code: CommandCode, params: seq<U32>)
    | Mutate(slot: nat, code: CommandCode, params: seq<U32>, data: Option<Bytes>)

  predicate Answered(camera: Camera, s: Step) {
    s.StartPreflight? ==> OneAnswerEach(camera, s.operation, s.facts, s.answers)
  }

  /** The step is a preflight that passed and gave this authorization. */
  ghost predicate EarnedBy(a: Authorization, c: Capability, camera: Camera, s: Step, descriptors: seq<PropDesc>) {
    && s.StartPreflight? && s.facts.Some? && Decide(camera, s.operation, s.facts.value).Some?
    && var (profile, capability) := Decide(camera, s.operation, s.facts.value).value;
    && |profile.requiredProperties| == |s.answers|
    && Collected(profile.requiredProperties, s.answers, descriptors)
    && a == AuthorizationFor(profile, descriptors) && c == capability
  }

  ghost predicate Earned(a: Authorization, c: Capability, camera: Camera, s: Step) {
    exists descriptors :: EarnedBy(a, c, camera, s, descriptors)
  }

  /** No preflight starts and no session ends between the two steps. */
  ghost predicate Uninterrupted(steps: seq<Step>, i: nat, n: nat) {
    forall k | i < k < n && k < |steps| :: !steps[k].StartPreflight? && !steps[k].EndSession?
  }

  /** The step is a fingerprint check that passes for this permit. */
  predicate PassesFingerprint(s: Step, slot: nat, c: Capability) {
    && s.CheckFingerprint? && s.slot == slot
    && FingerprintMatches(c, s.profileCode, s.padding, s.count, s.fields, |s.bytes|)
    && LiveEnvelope(s.bytes, s.profileCode, s.padding, s.count, |s.fields|)
  }

  /** The step is a profile check that passes for this permit. */
  predicate PassesProfile(s: Step, slot: nat, a: Authorization, c: Capability) {
    && s.CheckProfile? && s.slot == slot
    && SignatureMatches(c, s.profileCode, s.padding, s.fields, |s.bytes|)
    && PropertyAllowed(a, FUJI_RAW_CONVERSION_PROFILE, s.bytes)
  }

  ghost predicate FingerprintBetween(steps: seq<Step>, slot: nat, c: Capability, i: nat, n: nat) {
    exists f | i < f < n && f < |steps| :: PassesFingerprint(steps[f], slot, c)
  }

  /** A fingerprint check and then a profile check passed between the two steps. */
  ghost predicate BothBetween(steps: seq<Step>, slot: nat, a: Authorization, c: Capability, i: nat, n: nat) {
    exists p | i < p < n && p < |steps| :: PassesProfile(steps[p], slot, a, c) && FingerprintBetween(steps, slot, c, i, p)
  }

  /** An active permit was issued by step `i`, nothing ended it since, and its checks are steps
      after that. */
  ghost predicate LiveSince(permit: MutationPermit, slot: nat, camera: Camera, steps: seq<Step>, i: nat, n: nat)
    reads permit
  {
    && i < n <= |steps| && Uninterrupted(steps, i, n)
    && Earned(permit.authorization, permit.capability, camera, steps[i])
    && (FingerprintChecked in permit.checks ==> FingerprintBetween(steps, slot, permit.capability, i, n))
    && (ProfileChecked in permit.checks ==> BothBetween(steps, slot, permit.authorization, permit.capability, i, n))
  }

  /** The container was written by step `n`: a read, or a mutation under a grant that a passed
      preflight `i` before it earned, with nothing ending the permit in between, and for uploads
      with both checks made in between. */
  ghost predicate WrittenBy(e: Entry, camera: Camera, steps: seq<Step>, n: nat) {
    && n < |steps|
    && match e.grant
       case None => Risk(e.code).ReadOnly? && steps[n] == Step.Read(e.code, e.params)
       case Some(g) =>
         && Risk(e.code).StateChanging?
         && steps[n].Mutate? && steps[n] == Mutate(steps[n].slot, e.code, e.params, e.data)
         && exists i | 0 <= i < n :: GrantedBy(e, g, camera, steps, i, n)
  }

  ghost predicate GrantedBy(e: Entry, g: Grant, camera: Camera, steps: seq<Step>, i: nat, n: nat)
    requires i < n < |steps| && steps[n].Mutate?
  {
    && Uninterrupted(steps, i, n)
    && exists c ::
         && Earned(g.authorization, c, camera, steps[i])
         && (IsUpload(e.code) ==> BothBetween(steps, steps[n].slot, g.authorization, c, i, n))
  }

  lemma StillLive(permit: MutationPermit, slot: nat, camera: Camera, steps: seq<Step>, i: nat, n: nat)
    requires LiveSince(permit, slot, camera, steps, i, n) && n < |steps|
    requires !steps[n].StartPreflight? && !steps[n].EndSession?
    ensures LiveSince(permit, slot, camera, steps, i, n + 1)
  {
    hide PassesFingerprint, PassesProfile, Earned;
    if BothBetween(steps, slot, permit.authorization, permit.capability, i, n) {
      var p :| i < p < n && p < |steps| && PassesProfile(steps[p], slot, permit.authorization, permit.capability)
               && FingerprintBetween(steps, slot, permit.capability, i, p);
    }
  }

  lemma MutationWritten(permit: MutationPermit, slot: nat, e: Entry, camera: Camera, steps: seq<Step>, i: nat, n: nat)
    requires n < |steps| && LiveSince(permit, slot, camera, steps, i, n)
    requires steps[n] == Mutate(slot, e.code, e.params, e.data) && Risk(e.code).StateChanging?
    requires e.grant == Some(Grant(permit.id, permit.binding, permit.authorization, permit.checks))
    requires IsUpload(e.code) ==> ProfileChecked in permit.checks
    ensures WrittenBy(e, camera, steps, n)
  {
    hide Earned, BothBetween, FingerprintBetween, Uninterrupted;
    assert GrantedBy(e, e.grant.value, camera, steps, i, n);
  }

  lemma UploadNeedsProfile(a: Authorization, profileValidated: bool, code: CommandCode, params: seq<U32>, data: Option<Bytes>)
    requires Authorizes(a, profileValidated, code, params, data)
    ensures IsUpload(code) ==> profileValidated
  {}

  lemma ReadWritten(code: CommandCode, params: seq<U32>, camera: Camera, steps: seq<Step>, n: nat)
    requires n < |steps| && steps[n] == Step.Read(code, params) && Risk(code).ReadOnly?
    ensures WrittenBy(Entry(code, params, None, None), camera, steps, n)
  {}

  lemma EarnedHere(a: Authorization, c: Capability, camera: Camera, s: Step, descriptors: seq<PropDesc>)
    requires EarnedBy(a, c, camera, s, descriptors)
    ensures Earned(a, c, camera, s)
  {}

  /** What holds before step `n` of a run. Permits are numbered in the order of their issue, and
      `issued` says by which step. */
  ghost predicate RunState(gate: PtpGate, permits: seq<MutationPermit>, issued: seq<nat>, writtenAt: seq<nat>,
                           steps: seq<Step>, n: nat)
    reads gate, permits
  {
    && gate.Valid() && |issued| == |permits| && n <= |steps|
    && (forall a | 0 <= a < |permits| :: permits[a].Valid() && permits[a].id < gate.nextPermitId)
    && (forall a, b | 0 <= a < b < |permits| :: permits[a].id < permits[b].id)
    && (forall a | 0 <= a < |permits| && gate.IsActive(permits[a]) :: LiveSince(permits[a], a, gate.camera, steps, issued[a], n))
    && WrittenInOrder(gate.written, writtenAt, gate.camera, steps, n)
  }

  /** Each container was written by a step before `n`, later containers by later steps. */
  ghost predicate WrittenInOrder(written: seq<Entry>, writtenAt: seq<nat>, camera: Camera, steps: seq<Step>, n: nat) {
    && |writtenAt| == |written|
    && (forall j, k | 0 <= j < k < |writtenAt| :: writtenAt[j] < writtenAt[k])
    && (forall k | 0 <= k < |written| :: writtenAt[k] < n && WrittenBy(written[k], camera, steps, writtenAt[k]))
  }

  method StepPreflight(gate: PtpGate, permits: seq<MutationPermit>, ghost issued: seq<nat>, ghost writtenAt: seq<nat>,
                       steps: seq<Step>, n: nat) returns (permits': seq<MutationPermit>, ghost issued': seq<nat>)
    requires n < |steps| && RunState(gate, permits, issued, writtenAt, steps, n)
    requires steps[n].StartPreflight? && Answered(gate.camera, steps[n])
    modifies gate
    ensures RunState(gate, permits', issued', writtenAt, steps, n + 1)
    ensures forall p | p in permits' :: p in permits || fresh(p)
  {
    hide WrittenBy, Earned, EarnedBy, Decide, PtpGate.Valid, Collected, AuthorizationFor, VerdictOn;
    permits', issued' := permits, issued;
    var permit, descriptors := gate.RunPreflight(steps[n].operation, steps[n].facts, steps[n].answers);
    if permit != null {
      EarnedHere(permit.authorization, permit.capability, gate.camera, steps[n], descriptors);
      permits', issued' := permits + [permit], issued + [n];
    }
  }

  /** A check changes nothing about the other permits. */
  method StepCheck(gate: PtpGate, permits: seq<MutationPermit>, ghost issued: seq<nat>, ghost writtenAt: seq<nat>,
                   steps: seq<Step>, n: nat, slot: nat)
    requires n < |steps| && RunState(gate, permits, issued, writtenAt, steps, n)
    requires slot < |permits|
    requires (steps[n].CheckFingerprint? && steps[n].slot == slot) || (steps[n].CheckProfile? && steps[n].slot == slot)
    modifies permits[slot]
    ensures RunState(gate, permits, issued, writtenAt, steps, n + 1)
  {
    hide WrittenBy, Earned, LiveEnvelope, FingerprintMatches, SignatureMatches, PropertyAllowed, PtpGate.Valid;
    ghost var permit := permits[slot];
    ghost var before := permit.checks;
    var ok;
    match steps[n] {
      case CheckFingerprint(_, profileCode, padding, count, fields, bytes) =>
        ok := gate.CheckFingerprint(permits[slot], profileCode, padding, count, fields, bytes);
      case CheckProfile(_, profileCode, padding, fields, bytes) =>
        ok := gate.CheckProfile(permits[slot], profileCode, padding, fields, bytes);
    }
    if gate.IsActive(permit) {
      CheckedLive(permit, before, ok, slot, gate.camera, steps, issued[slot], n);
    }
    forall a | 0 <= a < |permits| && a != slot && gate.IsActive(permits[a])
      ensures LiveSince(permits[a], a, gate.camera, steps, issued[a], n + 1)
    {
      assert permits[a].id != permit.id;
      StillLive(permits[a], a, gate.camera, steps, issued[a], n);
    }
  }

  /** A check that passed on a live permit is the step it was made by. */
  lemma CheckedLive(permit: MutationPermit, before: seq<Check>, ok: bool, slot: nat, camera: Camera, steps: seq<Step>, i: nat, n: nat)
    requires i < n < |steps| && Uninterrupted(steps, i, n)
    requires Earned(permit.authorization, permit.capability, camera, steps[i])
    requires FingerprintChecked in before ==> FingerprintBetween(steps, slot, permit.capability, i, n)
    requires ProfileChecked in before ==> BothBetween(steps, slot, permit.authorization, permit.capability, i, n)
    requires steps[n].CheckFingerprint? || steps[n].CheckProfile?
    requires permit.checks == before +
               if !ok then [] else if steps[n].CheckFingerprint? then [FingerprintChecked] else [ProfileChecked]
    requires ok && steps[n].CheckFingerprint? ==> PassesFingerprint(steps[n], slot, permit.capability)
    requires ok && steps[n].CheckProfile? ==>
               FingerprintChecked in before && PassesProfile(steps[n], slot, permit.authorization, permit.capability)
    ensures LiveSince(permit, slot, camera, steps, i, n + 1)
  {
    hide PassesFingerprint, PassesProfile, Earned;
    if BothBetween(steps, slot, permit.authorization, permit.capability, i, n) {
      var p :| i < p < n && p < |steps| && PassesProfile(steps[p], slot, permit.authorization, permit.capability)
               && FingerprintBetween(steps, slot, permit.capability, i, p);
    }
  }

  method StepSend(gate: PtpGate, permits: seq<MutationPermit>, ghost issued: seq<nat>, ghost writtenAt: seq<nat>,
                  steps: seq<Step>, n: nat) returns (ghost writtenAt': seq<nat>)
    requires n < |steps| && RunState(gate, permits, issued, writtenAt, steps, n)
    requires steps[n].Read? || (steps[n].Mutate? && steps[n].slot < |permits|)
    modifies gate`written
    ensures RunState(gate, permits, issued, writtenAt', steps, n + 1)
  {
    hide WrittenBy, Earned, Authorizes, PassesFingerprint, PassesProfile, BothBetween, FingerprintBetween;
    writtenAt' := writtenAt;
    var ok, marks;
    match steps[n] {
      case Read(code, params) =>
        ok := gate.SendReadOnly(code, params, None);
        if ok { ReadWritten(code, params, gate.camera, steps, n); }
      case Mutate(slot, code, params, data) =>
        ok, marks := gate.SendMutating(permits[slot], code, params, data);
        if ok {
          UploadNeedsProfile(permits[slot].authorization, ProfileChecked in permits[slot].checks, code, params, data);
          MutationWritten(permits[slot], slot, gate.written[|gate.written| - 1], gate.camera, steps, issued[slot], n);
        }
    }
    if ok { writtenAt' := writtenAt + [n]; }
    AllStillLive(gate, permits, issued, steps, n);
  }

  lemma AllStillLive(gate: PtpGate, permits: seq<MutationPermit>, issued: seq<nat>, steps: seq<Step>, n: nat)
    requires n < |steps| && |issued| == |permits| && !steps[n].StartPreflight? && !steps[n].EndSession?
    requires forall a | 0 <= a < |permits| && gate.IsActive(permits[a]) :: LiveSince(permits[a], a, gate.camera, steps, issued[a], n)
    ensures forall a | 0 <= a < |permits| && gate.IsActive(permits[a]) :: LiveSince(permits[a], a, gate.camera, steps, issued[a], n + 1)
  {
    forall a | 0 <= a < |permits| && gate.IsActive(permits[a])
      ensures LiveSince(permits[a], a, gate.camera, steps, issued[a], n + 1)
    {
      StillLive(permits[a], a, gate.camera, steps, issued[a], n);
    }
  }

  method StepEnd(gate: PtpGate, permits: seq<MutationPermit>, ghost issued: seq<nat>, ghost writtenAt: seq<nat>,
                 steps: seq<Step>, n: nat)
    requires n < |steps| && RunState(gate, permits, issued, writtenAt, steps, n) && steps[n].EndSession?
    modifies gate`activePermitId, gate`ended
    ensures RunState(gate, permits, issued, writtenAt, steps, n + 1)
  {
    hide WrittenBy, LiveSince;
    gate.ClearMutationPermit();
  }

  /** A step on a permit that was never issued does nothing. */
  lemma StepIdle(gate: PtpGate, permits: seq<MutationPermit>, issued: seq<nat>, writtenAt: seq<nat>, steps: seq<Step>, n: nat)
    requires n < |steps| && RunState(gate, permits, issued, writtenAt, steps, n)
    requires !steps[n].StartPreflight? && !steps[n].EndSession?
    ensures RunState(gate, permits, issued, writtenAt, steps, n + 1)
  {
    hide WrittenBy, PtpGate.Valid;
    AllStillLive(gate, permits, issued, steps, n);
  }

  /** Any run, with every permit ever issued kept and tried again at will. Each container was
      written by one step, later containers by later steps, and each state-changing one under a
      grant that covers it, from a preflight before it that nothing had ended. */
  method Run(gate: PtpGate, steps: seq<Step>) returns (permits: seq<MutationPermit>, ghost writtenAt: seq<nat>)
    requires gate.Valid() && gate.written == [] && forall s | s in steps :: Answered(gate.camera, s)
    modifies gate
    ensures gate.Valid() && WrittenInOrder(gate.written, writtenAt, gate.camera, steps, |steps|)
    ensures forall k | 0 <= k < |gate.written| :: Justified(gate.written[k], gate.binding)
    ensures forall k, id | 0 <= k < |gate.written| && id in gate.ended && gate.written[k].grant.Some? && gate.written[k].grant.value.id == id ::
              k < gate.ended[id]
  {
    hide WrittenBy, LiveSince, Justified, MutationPermit.Valid;
    permits, writtenAt := [], [];
    ghost var issued: seq<nat> := [];
    for n := 0 to |steps|
      invariant RunState(gate, permits, issued, writtenAt, steps, n)
      invariant forall p | p in permits :: fresh(p)
    {
      hide RunState, Answered;
      assert steps[n] in steps;
      if steps[n].StartPreflight? {
        permits, issued := StepPreflight(gate, permits, issued, writtenAt, steps, n);
      } else if steps[n].EndSession? {
        StepEnd(gate, permits, issued, writtenAt, steps, n);
      } else if steps[n].Read? {
        writtenAt := StepSend(gate, permits, issued, writtenAt, steps, n);
      } else if |permits| <= steps[n].slot {
        StepIdle(gate, permits, issued, writtenAt, steps, n);
      } else if steps[n].Mutate? {
        writtenAt := StepSend(gate, permits, issued, writtenAt, steps, n);
      } else {
        assert permits[steps[n].slot] in permits;
        StepCheck(gate, permits, issued, writtenAt, steps, n, steps[n].slot);
      }
    }
  }

  /** Whatever step `n` of a run wrote to a property: a preflight before it had decided for the
      camera and passed, nothing ended the session in between, its profile requires the operation
      and the property writable, and the last descriptor it kept for the property is writable
      and its form holds the value. */
  lemma PropertyWritesAreProven(e: Entry, binding: Binding, camera: Camera, steps: seq<Step>, n: nat)
    requires Justified(e, binding) && WrittenBy(e, camera, steps, n) && e.code.Code() == 0x1016
    ensures e.params != [] && e.data.Some?
    ensures exists i | 0 <= i < n :: Uninterrupted(steps, i, n) && Proves(camera, steps[i], e.params[0], e.data.value)
  {
    hide Uninterrupted, Collected, PropertyAllowed, Decide, AuthorizationFor;
    var g := e.grant.value;
    var i :| 0 <= i < n && GrantedBy(e, g, camera, steps, i, n);
    var c :| Earned(g.authorization, c, camera, steps[i]);
    var descriptors :| EarnedBy(g.authorization, c, camera, steps[i], descriptors);
    ProvesWrite(g, c, camera, steps[i], descriptors, e.params, e.data);
  }

  /** The preflight step passed, and what it found makes this write a legal one. */
  ghost predicate Proves(camera: Camera, s: Step, property: nat, data: Bytes) {
    && Requires(camera, s, 0x1016)
    && var profile := Decide(camera, s.operation, s.facts.value).value.0;
    && |profile.requiredProperties| == |s.answers|
    && WriteProven(profile.requiredProperties, s.answers, property, data)
  }

  lemma ProvesWrite(g: Grant, c: Capability, camera: Camera, s: Step, descriptors: seq<PropDesc>, params: seq<U32>, data: Option<Bytes>)
    requires EarnedBy(g.authorization, c, camera, s, descriptors)
    requires Authorizes(g.authorization, ProfileChecked in g.checks, SetDevicePropValue, params, data)
    ensures params != [] && data.Some? && Proves(camera, s, params[0], data.value)
  {
    hide WriteProven, Collected, Decide, PropertyAllowed;
    PropertyWriteIsProven(Decide(camera, s.operation, s.facts.value).value.0, s.answers, descriptors, params[0], data.value);
  }

  /** The profile that the preflight step decided for requires this operation. */
  ghost predicate Requires(camera: Camera, s: Step, operation: U16) {
    && s.StartPreflight? && s.facts.Some? && Decide(camera, s.operation, s.facts.value).Some?
    && operation in Decide(camera, s.operation, s.facts.value).value.0.requiredOperations
  }

  /** Whatever step `n` of a run wrote, by wire code: a read-only command, or a state-changing
      one by a mutation. Then a preflight before it had decided for a profile that requires
      exactly this operation, with no preflight and no end of session in between. No other
      command is written at all. */
  lemma MutationsAreListed(e: Entry, binding: Binding, camera: Camera, steps: seq<Step>, n: nat)
    requires Justified(e, binding) && WrittenBy(e, camera, steps, n)
    ensures if e.code.Code() in {0x1001, 0x1007, 0x1008, 0x1009, 0x1014, 0x1015} then steps[n] == Step.Read(e.code, e.params)
            else
              && e.code.Code() in {0x100B, 0x100C, 0x100D, 0x1016, 0x900C, 0x900D}
              && steps[n].Mutate? && steps[n] == Mutate(steps[n].slot, e.code, e.params, e.data)
              && exists i | 0 <= i < n :: Uninterrupted(steps, i, n) && Requires(camera, steps[i], e.code.Code())
  {
    RiskByCode(e.code);
    hide Uninterrupted, Requires, GrantedBy, Risk, CommandCode.Code, Authorizes;
    if e.grant.Some? {
      var i :| 0 <= i < n && GrantedBy(e, e.grant.value, camera, steps, i, n);
      GrantRequires(e, e.grant.value, camera, steps, i, n);
    }
  }

  lemma GrantRequires(e: Entry, g: Grant, camera: Camera, steps: seq<Step>, i: nat, n: nat)
    requires i < n < |steps| && steps[n].Mutate? && GrantedBy(e, g, camera, steps, i, n)
    requires Authorizes(g.authorization, ProfileChecked in g.checks, e.code, e.params, e.data)
    ensures Uninterrupted(steps, i, n) && Requires(camera, steps[i], e.code.Code())
  {
    hide Uninterrupted, Collected, Decide, PropertyAllowed, BothBetween, CommandCode.Code;
    var c :| Earned(g.authorization, c, camera, steps[i]);
    var descriptors :| EarnedBy(g.authorization, c, camera, steps[i], descriptors);
  }

  /** The step checked a payload in the verified read layout of the RAW conversion. */
  ghost predicate ReadPayloadSeen(s: Step, slot: nat, d: RawDescriptor) {
    && s.CheckFingerprint? && s.slot == slot
    && ParseHex(d.read.profileCode) == Some(s.profileCode) && |s.bytes| == d.read.totalLength
    && d.read.headerPadding == s.padding && d.read.declaredFieldCount == s.count && d.read.fields == s.fields
    && exists text: Text, body: Bytes ::
         && ExactFits(text) && ParseHex(text) == Some(s.profileCode)
         && |body| == d.read.headerPadding + |d.read.fields| * 4
         && s.bytes == PutLe(d.read.declaredFieldCount, 2, PutExact(text, body))
  }

  /** The step checked a payload of the verified write layout that was proven for the RAW
      conversion property. */
  ghost predicate WritePayloadSeen(s: Step, slot: nat, d: RawDescriptor, requirements: seq<Requirement>, answers: seq<Answer>)
    requires |requirements| == |answers|
  {
    && s.CheckProfile? && s.slot == slot
    && d.write.Some?
    && var layout := d.write.value;
    && ParseHex(layout.profileCode) == Some(s.profileCode) && layout.headerPadding == s.padding
    && layout.fields == s.fields && layout.declaredFieldCount == |layout.fields| && layout.totalLength == |s.bytes|
    && WriteProven(requirements, answers, 0xD185, s.bytes)
  }

  /** The preflight step decided for a firmware whose RAW conversion is verified for writing by
      named evidence, and after it a payload read from the camera and then one to be written were
      checked on the permit in `slot`. */
  ghost predicate UploadPrepared(camera: Camera, steps: seq<Step>, slot: nat, i: nat, n: nat)
    requires i < n <= |steps|
  {
    && steps[i].StartPreflight? && steps[i].facts.Some? && Decide(camera, steps[i].operation, steps[i].facts.value).Some?
    && var (profile, capability) := Decide(camera, steps[i].operation, steps[i].facts.value).value;
    && |profile.requiredProperties| == |steps[i].answers|
    && capability.rawConversion.Some?
    && var d := capability.rawConversion.value;
    && d.writeVerified && d.evidenceManifests != [] && d.cameraState.None?
    && exists f, p | i < f < p < n ::
         && ReadPayloadSeen(steps[f], slot, d)
         && WritePayloadSeen(steps[p], slot, d, profile.requiredProperties, steps[i].answers)
  }

  lemma FingerprintSeen(s: Step, slot: nat, c: Capability)
    requires PassesFingerprint(s, slot, c)
    ensures c.rawConversion.Some? && ReadPayloadSeen(s, slot, c.rawConversion.value)
  {
    hide LiveEnvelope;
    FingerprintPinsPayload(c, s.profileCode, s.padding, s.count, s.fields, s.bytes);
  }

  lemma ProfileSeen(s: Step, slot: nat, profile: Profile, answers: seq<Answer>, descriptors: seq<PropDesc>, c: Capability)
    requires |profile.requiredProperties| == |answers| && Collected(profile.requiredProperties, answers, descriptors)
    requires PassesProfile(s, slot, AuthorizationFor(profile, descriptors), c)
    ensures c.rawConversion.Some?
    ensures var d := c.rawConversion.value;
            && d.writeVerified && d.evidenceManifests != [] && d.cameraState.None?
            && WritePayloadSeen(s, slot, d, profile.requiredProperties, answers)
  {
    hide Collected, WriteProven, PropertyAllowed;
    HexTextParses(s.profileCode);
    PropertyWriteIsProven(profile, answers, descriptors, 0xD185, s.bytes);
  }

  /** Before any upload (operations 0x900C and 0x900D) all of that has happened in this order,
      with no preflight and no end of session in between. */
  lemma UploadsAreProven(e: Entry, binding: Binding, camera: Camera, steps: seq<Step>, n: nat)
    requires Justified(e, binding) && WrittenBy(e, camera, steps, n) && e.code.Code() in {0x900C, 0x900D}
    ensures steps[n].Mutate?
    ensures exists i | 0 <= i < n :: Uninterrupted(steps, i, n) && UploadPrepared(camera, steps, steps[n].slot, i, n)
  {
    hide Uninterrupted, Collected, Decide, PropertyAllowed, LiveEnvelope, PassesFingerprint, PassesProfile,
         ReadPayloadSeen, WritePayloadSeen, AuthorizationFor, Authorizes;
    var g, slot := e.grant.value, steps[n].slot;
    var i :| 0 <= i < n && GrantedBy(e, g, camera, steps, i, n);
    var c :| Earned(g.authorization, c, camera, steps[i]) && BothBetween(steps, slot, g.authorization, c, i, n);
    var descriptors :| EarnedBy(g.authorization, c, camera, steps[i], descriptors);
    var p :| i < p < n && PassesProfile(steps[p], slot, g.authorization, c) && FingerprintBetween(steps, slot, c, i, p);
    var f :| i < f < p && PassesFingerprint(steps[f], slot, c);
    FingerprintSeen(steps[f], slot, c);
    ProfileSeen(steps[p], slot, Decide(camera, steps[i].operation, steps[i].facts.value).value.0, steps[i].answers, descriptors, c);
    assert UploadPrepared(camera, steps, slot, i, n);
  }
}
