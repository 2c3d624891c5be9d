/** The descriptor decoder as it runs: a cursor over the reply and loops that push values. */
module DescriptorReader {
  import opened Wrappers
  import opened Wire
  import opened Utf16
  import opened Descriptor

  /** What reading `p` in a loop that already holds `values` comes to. */
  function After(values: seq<PropValue>, p: Parsed<seq<PropValue>>): Parsed<seq<PropValue>> {
    var (more, rest) :- p;
    Done(values + more, rest)
  }

  lemma AfterPush(values: seq<PropValue>, v: PropValue, p: Parsed<seq<PropValue>>)
    ensures After(values, After([v], p)) == After(values + [v], p)
  {
    if p.Done? { assert values + ([v] + p.value) == (values + [v]) + p.value; }
  }

  lemma AfterNothing(p: Parsed<seq<PropValue>>)
    ensures After([], p) == p
  {
    if p.Done? { assert [] + p.value == p.value; }
  }

  lemma ParseValuesStep(s: Bytes, t: DataType, n: nat)
    requires n > 0
    ensures ParseValues(s, t, n) ==
            match ParseValue(s, t)
            case Fail => Fail
            case Done(v, s1) => After([v], ParseValues(s1, t, n - 1))
  {}

  method ReadValue(reader: Reader, t: DataType) returns (r: Option<PropValue>)
    requires reader.Valid()
    modifies reader
    ensures reader.Valid()
    ensures Agrees(r, reader.Rest(), ParseValue(old(reader.Rest()), t))
    decreases t.Rank(), 0, 0
  {
    if t.WireSize().Some? {
      var w := t.WireSize().value;
      var v := reader.ReadLe(w);
      if v.None? { return None; }
      r := Some(if t.Signed() then Int(FromTwosComplement(v.value, w)) else UInt(v.value));
    } else if t.StringType? {
      var text := ReadString(reader);
      r := if text.None? then None else Some(Str(text.value));
    } else {
      var items := ReadList(reader, t.Element().value);
      r := if items.None? then None else Some(Array(items.value));
    }
  }

  method ReadList(reader: Reader, element: DataType) returns (r: Option<seq<PropValue>>)
    requires reader.Valid() && element.WireSize().Some?
    modifies reader
    ensures reader.Valid()
    ensures Agrees(r, reader.Rest(), ParseList(old(reader.Rest()), element))
    decreases element.Rank(), 2, 0
  {
    var count := reader.ReadLe(4);
    if count.None? { return None; }
    var requiredBytes := count.value * element.WireSize().value;
    var remainingBytes := |reader.bytes| - reader.position;
    if requiredBytes > remainingBytes { return None; }
    if count.value * PROP_VALUE_BYTES > MAX_VALUES_ALLOCATION_BYTES { return None; }
    r := ReadValues(reader, element, count.value);
  }

  method ReadValues(reader: Reader, t: DataType, n: nat) returns (r: Option<seq<PropValue>>)
    requires reader.Valid()
    modifies reader
    ensures reader.Valid()
    ensures Agrees(r, reader.Rest(), ParseValues(old(reader.Rest()), t, n))
    decreases t.Rank(), 1, n
  {
    var values: seq<PropValue> := [];
    ghost var all := ParseValues(reader.Rest(), t, n);
    AfterNothing(all);
    for i := 0 to n
      invariant reader.Valid()
      invariant all == After(values, ParseValues(reader.Rest(), t, n - i))
    {
      ParseValuesStep(reader.Rest(), t, n - i);
      var v := ReadValue(reader, t);
      if v.None? { return None; }
      AfterPush(values, v.value, ParseValues(reader.Rest(), t, n - i - 1));
      values := values + [v.value];
    }
    assert values + [] == values;
    r := Some(values);
  }

  method ReadEnumeration(reader: Reader, t: DataType) returns (r: Option<seq<PropValue>>)
    requires reader.Valid()
    modifies reader
    ensures reader.Valid()
    ensures Agrees(r, reader.Rest(), ParseEnumeration(old(reader.Rest()), t))
  {
    var count := reader.ReadLe(2);
    if count.None? || MinimumBytes(t).None? { return None; }
    var minimumBytes := count.value * MinimumBytes(t).value;
    var remainingBytes := |reader.bytes| - reader.position;
    if minimumBytes > remainingBytes { return None; }
    if count.value * PROP_VALUE_BYTES > MAX_VALUES_ALLOCATION_BYTES { return None; }
    r := ReadValues(reader, t, count.value);
  }

  method ReadForm(reader: Reader, t: DataType) returns (r: Option<PropForm>)
    requires reader.Valid()
    modifies reader
    ensures reader.Valid()
    ensures Agrees(r, reader.Rest(), ParseForm(old(reader.Rest()), t))
  {
    var tag := reader.ReadLe(1);
    if tag.None? { return None; }
    if tag.value == 0 { return Some(NoForm); }
    if tag.value == 1 {
      var lo := ReadValue(reader, t);
      if lo.None? { return None; }
      var hi := ReadValue(reader, t);
      if hi.None? { return None; }
      var st := ReadValue(reader, t);
      if st.None? { return None; }
      return Some(Range(lo.value, hi.value, st.value));
    }
    if tag.value == 2 {
      var values := ReadEnumeration(reader, t);
      if values.None? { return None; }
      return Some(Enumeration(values.value));
    }
    return None;
  }

  method DecodeBytes(bytes: Bytes) returns (r: Option<PropDesc>)
    ensures r == Decode(bytes)
  {
    WidthBounds();
    var reader := new Reader(bytes);
    var propertyCode := reader.ReadLe(2);
    if propertyCode.None? { return None; }
    PutParseLe(bytes, 2);
    var typeCode := reader.ReadLe(2);
    if typeCode.None? { return None; }
    var dataType := TypeFromCode(typeCode.value);
    if dataType.None? { return None; }
    var t := dataType.value;
    var getSet := reader.ReadLe(1);
    if getSet.None? || getSet.value > 1 { return None; }
    var factoryDefault := ReadValue(reader, t);
    if factoryDefault.None? { return None; }
    var current := ReadValue(reader, t);
    if current.None? { return None; }
    var form := ReadForm(reader, t);
    if form.None? { return None; }
    var end := reader.IsAtEnd();
    if !end { return None; }
    var d := PropDesc(propertyCode.value, t, getSet.value == 1, factoryDefault.value, current.value, form.value);
    r := if DeclaredValuesHold(d) then Some(d) else None;
  }

  method ValidateCandidate(d: PropDesc, candidate: Bytes) returns (ok: bool)
    ensures ok <==> Accepts(d, candidate)
  {
    if !d.writable { return false; }
    var reader := new Reader(candidate);
    var value := ReadValue(reader, d.dataType);
    if value.None? { return false; }
    var end := reader.IsAtEnd();
    return end && InForm(value.value, d.form);
  }
}
