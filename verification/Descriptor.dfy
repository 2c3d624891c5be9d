/** Device property descriptors (section 13.3 of PIMA 15740:2000): decoding untrusted bytes and
    checking candidate values against what the descriptor declares. */
module Descriptor {
  import opened Wrappers
  import opened Wire
  import opened Utf16
  import opened Arithmetic

  datatype DataType =
    | Int8 | UInt8 | Int16 | UInt16 | Int32 | UInt32 | Int64 | UInt64 | Int128 | UInt128
    | Int8Array | UInt8Array | Int16Array | UInt16Array | Int32Array | UInt32Array
    | Int64Array | UInt64Array | Int128Array | UInt128Array
    | StringType
  {
    function Code(): U16 {
      match this
      case Int8 => 0x0001
      case UInt8 => 0x0002
      case Int16 => 0x0003
      case UInt16 => 0x0004
      case Int32 => 0x0005
      case UInt32 => 0x0006
      case Int64 => 0x0007
      case UInt64 => 0x0008
      case Int128 => 0x0009
      case UInt128 => 0x000A
      case Int8Array => 0x4001
      case UInt8Array => 0x4002
      case Int16Array => 0x4003
      case UInt16Array => 0x4004
      case Int32Array => 0x4005
      case UInt32Array => 0x4006
      case Int64Array => 0x4007
      case UInt64Array => 0x4008
      case Int128Array => 0x4009
      case UInt128Array => 0x400A
      case StringType => 0xFFFF
    }

    /** Encoded width of a scalar; none for arrays and strings. */
    function WireSize(): Option<nat> {
      match this
      case Int8 => Some(1)
      case UInt8 => Some(1)
      case Int16 => Some(2)
      case UInt16 => Some(2)
      case Int32 => Some(4)
      case UInt32 => Some(4)
      case Int64 => Some(8)
      case UInt64 => Some(8)
      case Int128 => Some(16)
      case UInt128 => Some(16)
      case _ => None
    }

    predicate Signed() {
      Int8? || Int16? || Int32? || Int64? || Int128?
    }

    /** Element type of an array. */
    function Element(): (e: Option<DataType>)
      ensures e.Some? ==> e.value.WireSize().Some?
      ensures e.Some? <==> WireSize().None? && !StringType?
    {
      match this
      case Int8Array => Some(Int8)
      case UInt8Array => Some(UInt8)
      case Int16Array => Some(Int16)
      case UInt16Array => Some(UInt16)
      case Int32Array => Some(Int32)
      case UInt32Array => Some(UInt32)
      case Int64Array => Some(Int64)
      case UInt64Array => Some(UInt64)
      case Int128Array => Some(Int128)
      case UInt128Array => Some(UInt128)
      case _ => None
    }

    function Rank(): nat {
      if Element().Some? then 1 else 0
    }
  }

  function TypeFromCode(code: nat): Option<DataType> {
    match code
    case 0x0001 => Some(Int8)
    case 0x0002 => Some(UInt8)
    case 0x0003 => Some(Int16)
    case 0x0004 => Some(UInt16)
    case 0x0005 => Some(Int32)
    case 0x0006 => Some(UInt32)
    case 0x0007 => Some(Int64)
    case 0x0008 => Some(UInt64)
    case 0x0009 => Some(Int128)
    case 0x000A => Some(UInt128)
    case 0x4001 => Some(Int8Array)
    case 0x4002 => Some(UInt8Array)
    case 0x4003 => Some(Int16Array)
    case 0x4004 => Some(UInt16Array)
    case 0x4005 => Some(Int32Array)
    case 0x4006 => Some(UInt32Array)
    case 0x4007 => Some(Int64Array)
    case 0x4008 => Some(UInt64Array)
    case 0x4009 => Some(Int128Array)
    case 0x400A => Some(UInt128Array)
    case 0xFFFF => Some(StringType)
    case _ => None
  }

  lemma TypeCodes(t: DataType, code: nat)
    ensures TypeFromCode(t.Code()) == Some(t)
    ensures TypeFromCode(code).Some? ==> TypeFromCode(code).value.Code() == code
    ensures TypeFromCode(code).Some? <==> 1 <= code <= 10 || 0x4001 <= code <= 0x400A || code == 0xFFFF
  {}

  datatype PropValue = Int(i: int) | UInt(u: nat) | Array(items: seq<PropValue>) | Str(t: Text)

  datatype PropForm =
    | NoForm
    | Range(minimum: PropValue, maximum: PropValue, step: PropValue)
    | Enumeration(values: seq<PropValue>)

  datatype PropDesc = PropDesc(
    propertyCode: U16,
    dataType: DataType,
    writable: bool,
    factoryDefault: PropValue,
    current: PropValue,
    form: PropForm)

  /** Bytes one decoded value occupies in memory, and the budget of one decoded list. */
  const PROP_VALUE_BYTES := 32
  const MAX_VALUES_ALLOCATION_BYTES := 16 * 1024 * 1024
  const MAX_VALUES := 524_288

  // ---------- two's complement ----------

  function Half(width: nat): (h: int)
    requires width > 0
    ensures 2 * h == Pow256(width)
  {
    128 * Pow256(width - 1)
  }

  function FromTwosComplement(v: nat, width: nat): int
    requires width > 0
  {
    if v < Half(width) then v else v - Pow256(width)
  }

  function ToTwosComplement(i: int, width: nat): (v: nat)
    requires width > 0 && -Half(width) <= i < Half(width)
    ensures v < Pow256(width)
    ensures FromTwosComplement(v, width) == i
  {
    if i >= 0 then i else i + Pow256(width)
  }

  lemma TwosComplementRange(v: nat, width: nat)
    requires width > 0 && v < Pow256(width)
    ensures var i := FromTwosComplement(v, width);
            -Half(width) <= i < Half(width) && ToTwosComplement(i, width) == v
  {}

  // ---------- values ----------

  /** The value is one the datatype can hold, within the list budget. */
  predicate Inhabits(v: PropValue, t: DataType)
    decreases t.Rank()
  {
    match t.WireSize()
    case Some(w) =>
      if t.Signed() then v.Int? && -Half(w) <= v.i < Half(w)
      else v.UInt? && v.u < Pow256(w)
    case None =>
      if t.StringType? then v.Str? && StringFits(v.t)
      else
        && v.Array? && |v.items| <= MAX_VALUES
        && forall x | x in v.items :: Inhabits(x, t.Element().value)
  }

  /** What a scalar of this wire code can hold. */
  predicate HeldBy(code: nat, v: PropValue) {
    match code
    case 0x0001 => v.Int? && -128 <= v.i < 128
    case 0x0002 => v.UInt? && v.u < 256
    case 0x0003 => v.Int? && -32_768 <= v.i < 32_768
    case 0x0004 => v.UInt? && v.u < 65_536
    case 0x0005 => v.Int? && -2_147_483_648 <= v.i < 2_147_483_648
    case 0x0006 => v.UInt? && v.u < 4_294_967_296
    case 0x0007 => v.Int? && -0x8000_0000_0000_0000 <= v.i < 0x8000_0000_0000_0000
    case 0x0008 => v.UInt? && v.u < 0x1_0000_0000_0000_0000
    case 0x0009 => v.Int? && -0x8000_0000_0000_0000_0000_0000_0000_0000 <= v.i < 0x8000_0000_0000_0000_0000_0000_0000_0000
    case 0x000A => v.UInt? && v.u < 0x1_0000_0000_0000_0000_0000_0000_0000_0000
    case _ => false
  }

  lemma HalfWidths()
    ensures Half(1) == 128 && Half(2) == 32_768 && Half(4) == 2_147_483_648 && Half(8) == 0x8000_0000_0000_0000
    ensures Half(16) == 0x8000_0000_0000_0000_0000_0000_0000_0000
  {
    WidthBounds();
  }

  lemma ScalarsByCode(t: DataType, v: PropValue)
    requires t.Code() < 0x4000
    ensures Inhabits(v, t) <==> HeldBy(t.Code(), v)
  {
    WidthBounds();
    HalfWidths();
    hide Pow256, Half;
  }

  /** Every datatype by its wire code: ten scalars with their ranges, at most 524,288 of the
      scalar whose code is lower by 0x4000, and strings of at most 254 UTF-16 units. */
  lemma ValuesByCode(t: DataType, v: PropValue)
    ensures Inhabits(v, t) <==>
              if t.Code() == 0xFFFF then v.Str? && |EncodeUtf16(v.t)| <= 254
              else if t.Code() < 0x4000 then HeldBy(t.Code(), v)
              else v.Array? && |v.items| <= 524_288 && forall x | x in v.items :: HeldBy(t.Code() - 0x4000, x)
  {
    if t.Code() < 0x4000 {
      ScalarsByCode(t, v);
    } else if t.Element().Some? {
      assert t.Element().value.Code() == t.Code() - 0x4000;
      if v.Array? {
        forall x | x in v.items ensures Inhabits(x, t.Element().value) <==> HeldBy(t.Code() - 0x4000, x) {
          ScalarsByCode(t.Element().value, x);
        }
      }
    }
  }

  function ParseScalar(s: Bytes, t: DataType): Parsed<PropValue>
    requires t.WireSize().Some?
  {
    var w := t.WireSize().value;
    var (v, rest) :- ParseLe(s, w);
    Done(if t.Signed() then Int(FromTwosComplement(v, w)) else UInt(v), rest)
  }

  function ParseValue(s: Bytes, t: DataType): Parsed<PropValue>
    decreases t.Rank(), 0, 0
  {
    if t.WireSize().Some? then ParseScalar(s, t)
    else if t.StringType? then
      var (text, rest) :- ParseString(s);
      Done(Str(text), rest)
    else
      var (items, rest) :- ParseList(s, t.Element().value);
      Done(Array(items), rest)
  }

  /** `read_array`: the count, checked against the payload and the budget, then the elements. */
  function ParseList(s: Bytes, element: DataType): Parsed<seq<PropValue>>
    requires element.WireSize().Some?
    decreases element.Rank(), 2, 0
  {
    var (count, s1) :- ParseLe(s, 4);
    if count * element.WireSize().value > |s1| then Fail
    else if count * PROP_VALUE_BYTES > MAX_VALUES_ALLOCATION_BYTES then Fail
    else ParseValues(s1, element, count)
  }

  function ParseValues(s: Bytes, t: DataType, n: nat): Parsed<seq<PropValue>>
    decreases t.Rank(), 1, n
  {
    if n == 0 then Done([], s)
    else
      var (v, s1) :- ParseValue(s, t);
      var (vs, s2) :- ParseValues(s1, t, n - 1);
      Done([v] + vs, s2)
  }

  /** Fewest bytes one element of an enumeration takes; arrays cannot be enumerated. */
  function MinimumBytes(t: DataType): Option<nat> {
    if t.WireSize().Some? then t.WireSize() else if t.StringType? then Some(1) else None
  }

  function ParseEnumeration(s: Bytes, t: DataType): Parsed<seq<PropValue>> {
    var (count, s1) :- ParseLe(s, 2);
    match MinimumBytes(t)
    case None => Fail
    case Some(bytes) =>
      if count * bytes > |s1| then Fail
      else if count * PROP_VALUE_BYTES > MAX_VALUES_ALLOCATION_BYTES then Fail
      else ParseValues(s1, t, count)
  }

  function PutValue(v: PropValue, t: DataType, rest: Bytes): Bytes
    requires Inhabits(v, t)
    decreases t.Rank(), 0, 0
  {
    match t.WireSize()
    case Some(w) => PutLe(if t.Signed() then ToTwosComplement(v.i, w) else v.u, w, rest)
    case None =>
      if t.StringType? then PutString(v.t, rest)
      else PutLe(|v.items|, 4, PutValues(v.items, t.Element().value, rest))
  }

  function PutValues(vs: seq<PropValue>, t: DataType, rest: Bytes): Bytes
    requires forall x | x in vs :: Inhabits(x, t)
    decreases t.Rank(), 1, |vs|
  {
    if vs == [] then rest else PutValue(vs[0], t, PutValues(vs[1..], t, rest))
  }

  /** Bytes in a scalar of this wire code. */
  function BytesOf(code: nat): nat {
    match code
    case 0x0001 => 1
    case 0x0002 => 1
    case 0x0003 => 2
    case 0x0004 => 2
    case 0x0005 => 4
    case 0x0006 => 4
    case 0x0007 => 8
    case 0x0008 => 8
    case _ => 16
  }

  /** The value that these bytes stand for under a scalar code: their little-endian number for an
      even code; for an odd one their two's complement, which differs from the number by nothing
      or by the modulus and is in range. */
  predicate StandsFor(bytes: Bytes, code: nat, v: PropValue) {
    HeldBy(code, v) && if v.Int? then v.i in {LeValue(bytes), LeValue(bytes) - Pow256(|bytes|)} else v == UInt(LeValue(bytes))
  }

  /** Every scalar is read as what its bytes stand for; too few bytes are an error. */
  lemma ScalarsAreRead(s: Bytes, t: DataType)
    requires t.Code() < 0x4000
    ensures |s| < BytesOf(t.Code()) ==> ParseValue(s, t).Fail?
    ensures |s| >= BytesOf(t.Code()) ==>
              exists v :: ParseValue(s, t) == Done(v, s[BytesOf(t.Code())..]) && StandsFor(s[..BytesOf(t.Code())], t.Code(), v)
  {
    assert t.WireSize() == Some(BytesOf(t.Code()));
    if |s| >= BytesOf(t.Code()) {
      ScalarIsRead(s, t, BytesOf(t.Code()));
    }
    hide BytesOf, DataType.Code, ParseValue, StandsFor;
  }

  lemma ScalarIsRead(s: Bytes, t: DataType, n: nat)
    requires t.WireSize() == Some(n) && |s| >= n && t.Code() < 0x4000
    ensures exists v :: ParseValue(s, t) == Done(v, s[n..]) && StandsFor(s[..n], t.Code(), v)
  {
    ParsedScalarInhabits(s, t);
    var v := ParseValue(s, t).value;
    ScalarsByCode(t, v);
    hide HeldBy, Inhabits, Pow256, LeValue, DataType.Code;
    assert StandsFor(s[..n], t.Code(), v);
  }

  lemma ParsePutScalar(v: PropValue, t: DataType, rest: Bytes)
    requires t.WireSize().Some? && Inhabits(v, t)
    ensures ParseScalar(PutValue(v, t, rest), t) == Done(v, rest)
    ensures |PutValue(v, t, rest)| == t.WireSize().value + |rest|
  {
    var w := t.WireSize().value;
    ParsePutLe(if t.Signed() then ToTwosComplement(v.i, w) else v.u, w, rest);
  }

  /** Every value of the type reads back from its encoding. */
  lemma {:induction false} ParsePutValue(v: PropValue, t: DataType, rest: Bytes)
    requires Inhabits(v, t)
    ensures ParseValue(PutValue(v, t, rest), t) == Done(v, rest)
    decreases t.Rank(), 2, 0
  {
    if t.WireSize().Some? {
      ParsePutScalar(v, t, rest);
    } else if t.StringType? {
      ParsePutString(v.t, rest);
    } else {
      ParsePutList(v.items, t.Element().value, rest);
    }
  }

  lemma {:induction false} ParsePutList(items: seq<PropValue>, e: DataType, rest: Bytes)
    requires e.WireSize().Some? && |items| <= MAX_VALUES && forall x | x in items :: Inhabits(x, e)
    ensures ParseList(PutLe(|items|, 4, PutValues(items, e, rest)), e) == Done(items, rest)
    decreases e.Rank(), 4, 0
  {
    WidthBounds();
    ParsePutLe(|items|, 4, PutValues(items, e, rest));
    ParsePutValues(items, e, rest);
    ScalarsLength(items, e, rest);
  }

  lemma {:induction false} ParsePutValues(vs: seq<PropValue>, t: DataType, rest: Bytes)
    requires forall x | x in vs :: Inhabits(x, t)
    ensures ParseValues(PutValues(vs, t, rest), t, |vs|) == Done(vs, rest)
    decreases t.Rank(), 3, |vs|
  {
    hide ParseValue, PutValue, Inhabits;
    if vs != [] {
      ParsePutValue(vs[0], t, PutValues(vs[1..], t, rest));
      ParsePutValues(vs[1..], t, rest);
      assert vs == [vs[0]] + vs[1..];
    }
  }

  lemma {:induction false} ScalarsLength(vs: seq<PropValue>, t: DataType, rest: Bytes)
    requires t.WireSize().Some? && forall x | x in vs :: Inhabits(x, t)
    ensures |PutValues(vs, t, rest)| == |vs| * t.WireSize().value + |rest|
    decreases |vs|
  {
    if vs != [] {
      ScalarsLength(vs[1..], t, rest);
      ParsePutScalar(vs[0], t, PutValues(vs[1..], t, rest));
      var w := t.WireSize().value;
      assert |vs| * w == w + (|vs| - 1) * w;
    }
  }

  lemma ParsedScalarInhabits(s: Bytes, t: DataType)
    requires t.WireSize().Some? && ParseScalar(s, t).Done?
    ensures var p := ParseScalar(s, t);
            && Inhabits(p.value, t) && PutValue(p.value, t, p.rest) == s
            && |s| == t.WireSize().value + |p.rest|
  {
    var w := t.WireSize().value;
    PutParseLe(s, w);
    if t.Signed() { TwosComplementRange(ParseLe(s, w).value, w); }
  }

  lemma ParsedStringInhabits(s: Bytes)
    requires ParseString(s).Done?
    ensures var p := ParseString(s);
            && StringFits(p.value) && |p.rest| < |s|
            && (!UnitForm(s) ==> PutString(p.value, p.rest) == s)
            && (UnitForm(s) ==> p.value == [] && s == [1, 0, 0] + p.rest)
  {
    PutParseString(s);
    FirstByte(s);
    if UnitForm(s) { UnitFormBytes(s); }
    else { PutStringIsLonger(ParseString(s).value, ParseString(s).rest); }
  }

  lemma PutStringIsLonger(t: Text, rest: Bytes)
    requires StringFits(t)
    ensures |PutString(t, rest)| > |rest|
  {
    if EncodeUtf16(t) != [] {
      EncodeFits(t);
      ParsePutMany(EncodeUtf16(t), 2, PutLe(0, 2, rest));
    }
  }

  lemma {:induction false} ParsedListInhabits(s: Bytes, e: DataType)
    requires e.WireSize().Some? && ParseList(s, e).Done?
    ensures var p := ParseList(s, e);
            && |p.value| <= MAX_VALUES && (forall x | x in p.value :: Inhabits(x, e))
            && |p.value| + |p.rest| < |s|
            && PutLe(|p.value|, 4, PutValues(p.value, e, p.rest)) == s
    decreases e.Rank(), 4, 0
  {
    PutParseLe(s, 4);
    ParsedValuesInhabit(ParseLe(s, 4).rest, e, ParseLe(s, 4).value);
  }

  /** Every successful read yields a value of the type and is its encoding, up to the one-unit
      empty string. */
  lemma {:induction false} ParsedInhabits(s: Bytes, t: DataType)
    requires ParseValue(s, t).Done?
    ensures var p := ParseValue(s, t);
            && Inhabits(p.value, t)
            && |p.rest| < |s|
            && (t.WireSize().Some? ==> |s| == t.WireSize().value + |p.rest|)
            && (!(t.StringType? && UnitForm(s)) ==> PutValue(p.value, t, p.rest) == s)
            && (t.StringType? && UnitForm(s) ==> p.value == Str([]) && s == [1, 0, 0] + p.rest)
    decreases t.Rank(), 2, 0
  {
    if t.WireSize().Some? {
      ParsedScalarInhabits(s, t);
    } else if t.StringType? {
      ParsedStringInhabits(s);
    } else {
      ParsedListInhabits(s, t.Element().value);
    }
  }

  lemma {:induction false} ParsedValuesInhabit(s: Bytes, t: DataType, n: nat)
    requires ParseValues(s, t, n).Done?
    ensures var p := ParseValues(s, t, n);
            && |p.value| == n
            && (forall x | x in p.value :: Inhabits(x, t))
            && n + |p.rest| <= |s|
            && (t.WireSize().Some? ==>
                  |s| == n * t.WireSize().value + |p.rest| && PutValues(p.value, t, p.rest) == s)
    decreases t.Rank(), 3, n
  {
    hide ParseValue, PutValue, Inhabits;
    if n != 0 {
      ParsedInhabits(s, t);
      var v, s1 := ParseValue(s, t).value, ParseValue(s, t).rest;
      ParsedValuesInhabit(s1, t, n - 1);
      var vs := ParseValues(s1, t, n - 1).value;
      assert ParseValues(s, t, n).value == [v] + vs;
      assert ([v] + vs)[1..] == vs;
      if t.WireSize().Some? {
        var w := t.WireSize().value;
        assert n * w == w + (n - 1) * w;
      }
    }
  }

  // ---------- ranges ----------

  const I128_MIN: int := -0x8000_0000_0000_0000_0000_0000_0000_0000
  const I128_MAX: int := 0x7FFF_FFFF_FFFF_FFFF_FFFF_FFFF_FFFF_FFFF

  /** `value_is_in_range`; the signed difference is a checked 128-bit subtraction. */
  predicate ValueIsInRange(candidate: PropValue, minimum: PropValue, maximum: PropValue, step: PropValue) {
    match (candidate, minimum, maximum, step)
    case (Int(c), Int(lo), Int(hi), Int(st)) =>
      st > 0 && c >= lo && c <= hi && c - lo <= I128_MAX && (c - lo) % st == 0
    case (UInt(c), UInt(lo), UInt(hi), UInt(st)) =>
      st > 0 && c >= lo && c <= hi && (c - lo) % st == 0
    case _ => false
  }

  /** The grid a range declares: minimum plus a whole number of positive steps, up to maximum. */
  ghost predicate OnGrid(c: int, lo: int, hi: int, st: int) {
    st > 0 && c <= hi && exists k: nat :: c == AtStep(lo, k, st)
  }

  function AtStep(lo: int, k: nat, st: int): int { lo + k * st }

  lemma GridIsDivisibility(c: int, lo: int, hi: int, st: int)
    requires st > 0
    ensures OnGrid(c, lo, hi, st) <==> lo <= c <= hi && (c - lo) % st == 0
  {
    if lo <= c <= hi && (c - lo) % st == 0 {
      var k := (c - lo) / st;
      assert c - lo == k * st + (c - lo) % st;
      QuotientNonNegative(c - lo, st);
      assert c == AtStep(lo, k, st);
    }
    if OnGrid(c, lo, hi, st) {
      var k: nat :| c == AtStep(lo, k, st);
      MultipleHasNoRemainder(k, st);
      assert k * st >= 0;
    }
  }

  lemma QuotientNonNegative(a: int, b: int)
    requires a >= 0 && b > 0
    ensures a / b >= 0
  {}

  /** What the range check means, with the one case the checked subtraction refuses: a signed
      distance past the 128-bit maximum. */
  lemma RangeMeaning(c: PropValue, lo: PropValue, hi: PropValue, st: PropValue)
    ensures ValueIsInRange(c, lo, hi, st) <==>
              || (c.Int? && lo.Int? && hi.Int? && st.Int? && OnGrid(c.i, lo.i, hi.i, st.i) && c.i - lo.i <= I128_MAX)
              || (c.UInt? && lo.UInt? && hi.UInt? && st.UInt? && OnGrid(c.u, lo.u, hi.u, st.u))
  {
    if c.Int? && lo.Int? && hi.Int? && st.Int? && st.i > 0 { GridIsDivisibility(c.i, lo.i, hi.i, st.i); }
    if c.UInt? && lo.UInt? && hi.UInt? && st.UInt? && st.u > 0 { GridIsDivisibility(c.u, lo.u, hi.u, st.u); }
  }

  /** Below 128 bits, and for unsigned 128-bit values, the check is exactly the declared grid. */
  lemma NarrowRangeIsExact(t: DataType, c: PropValue, lo: PropValue, hi: PropValue, st: PropValue)
    requires t.WireSize().Some? && t != Int128
    requires Inhabits(c, t) && Inhabits(lo, t) && Inhabits(hi, t) && Inhabits(st, t)
    ensures ValueIsInRange(c, lo, hi, st) <==>
              if t.Signed() then OnGrid(c.i, lo.i, hi.i, st.i) else OnGrid(c.u, lo.u, hi.u, st.u)
  {
    RangeMeaning(c, lo, hi, st);
    WidthBounds();
  }

  // ---------- descriptors ----------

  predicate InForm(v: PropValue, form: PropForm) {
    match form
    case NoForm => true
    case Range(lo, hi, st) => ValueIsInRange(v, lo, hi, st)
    case Enumeration(values) => v in values
  }

  /** `validate_declared_values`. */
  predicate DeclaredValuesHold(d: PropDesc) {
    match d.form
    case NoForm => true
    case Range(lo, hi, st) =>
      ValueIsInRange(d.factoryDefault, lo, hi, st) && ValueIsInRange(d.current, lo, hi, st)
    case Enumeration(values) =>
      values != [] && d.factoryDefault in values && d.current in values
  }

  predicate FormFits(form: PropForm, t: DataType) {
    match form
    case NoForm => true
    case Range(lo, hi, st) => Inhabits(lo, t) && Inhabits(hi, t) && Inhabits(st, t)
    case Enumeration(values) =>
      && MinimumBytes(t).Some? && |values| < 0x1_0000
      && forall x | x in values :: Inhabits(x, t)
  }

  /** A descriptor whose parts the wire can carry. */
  predicate Encodable(d: PropDesc) {
    Inhabits(d.factoryDefault, d.dataType) && Inhabits(d.current, d.dataType) && FormFits(d.form, d.dataType)
  }

  function ParseForm(s: Bytes, t: DataType): Parsed<PropForm> {
    var (tag, s1) :- ParseLe(s, 1);
    if tag == 0 then Done(NoForm, s1)
    else if tag == 1 then
      var (lo, s2) :- ParseValue(s1, t);
      var (hi, s3) :- ParseValue(s2, t);
      var (st, s4) :- ParseValue(s3, t);
      Done(Range(lo, hi, st), s4)
    else if tag == 2 then
      var (values, s2) :- ParseEnumeration(s1, t);
      Done(Enumeration(values), s2)
    else Fail
  }

  /** Property code, datatype and GetSet flag. */
  datatype Head = Head(propertyCode: U16, dataType: DataType, writable: bool)

  function ParseHead(s: Bytes): Parsed<Head> {
    WidthBounds();
    var (propertyCode, s1) :- ParseLe(s, 2);
    var (typeCode, s2) :- ParseLe(s1, 2);
    match TypeFromCode(typeCode)
    case None => Fail
    case Some(t) =>
      var (getSet, s3) :- ParseLe(s2, 1);
      if getSet > 1 then Fail else Done(Head(propertyCode, t, getSet == 1), s3)
  }

  function ParseDesc(s: Bytes): Parsed<PropDesc> {
    var (head, rest) :- ParseHead(s);
    ParseBody(rest, head.propertyCode, head.dataType, head.writable)
  }

  function ParseBody(s: Bytes, propertyCode: U16, t: DataType, writable: bool): Parsed<PropDesc> {
    var (factoryDefault, s1) :- ParseValue(s, t);
    var (current, s2) :- ParseValue(s1, t);
    var (form, s3) :- ParseForm(s2, t);
    Done(PropDesc(propertyCode, t, writable, factoryDefault, current, form), s3)
  }

  /** `DevicePropDesc::decode`. */
  function Decode(s: Bytes): Option<PropDesc> {
    match ParseDesc(s)
    case Fail => None
    case Done(d, rest) => if rest == [] && DeclaredValuesHold(d) then Some(d) else None
  }

  /** `DevicePropDesc::from_static`. */
  function FromStatic(propertyCode: U16, t: DataType, form: PropForm, currentBytes: Bytes): Option<PropDesc> {
    match ParseValue(currentBytes, t)
    case Fail => None
    case Done(v, rest) =>
      var d := PropDesc(propertyCode, t, true, v, v, form);
      if rest == [] && DeclaredValuesHold(d) then Some(d) else None
  }

  function PutForm(form: PropForm, t: DataType, rest: Bytes): Bytes
    requires FormFits(form, t)
  {
    match form
    case NoForm => PutLe(0, 1, rest)
    case Range(lo, hi, st) => PutLe(1, 1, PutValue(lo, t, PutValue(hi, t, PutValue(st, t, rest))))
    case Enumeration(values) => PutLe(2, 1, PutLe(|values|, 2, PutValues(values, t, rest)))
  }

  function PutHead(h: Head, rest: Bytes): Bytes {
    PutLe(h.propertyCode, 2, PutLe(h.dataType.Code(), 2, PutLe(if h.writable then 1 else 0, 1, rest)))
  }

  /** The wire form of a descriptor, as the standard lays it out. */
  function EncodeDesc(d: PropDesc): Bytes
    requires Encodable(d)
  {
    PutHead(Head(d.propertyCode, d.dataType, d.writable), PutBody(d))
  }

  function PutBody(d: PropDesc): Bytes
    requires Encodable(d)
  {
    PutValue(d.factoryDefault, d.dataType, PutValue(d.current, d.dataType, PutForm(d.form, d.dataType, [])))
  }

  lemma ParsePutBody(d: PropDesc)
    requires Encodable(d)
    ensures ParseBody(PutBody(d), d.propertyCode, d.dataType, d.writable) == Done(d, [])
  {
    var t := d.dataType;
    var s2 := PutForm(d.form, t, []);
    ParsePutValue(d.factoryDefault, t, PutValue(d.current, t, s2));
    ParsePutValue(d.current, t, s2);
    ParsePutForm(d.form, t, []);
  }

  lemma {:induction false} ValuesLength(vs: seq<PropValue>, t: DataType, rest: Bytes)
    requires MinimumBytes(t).Some? && forall x | x in vs :: Inhabits(x, t)
    ensures |PutValues(vs, t, rest)| >= |vs| * MinimumBytes(t).value + |rest|
    decreases |vs|
  {
    if vs != [] {
      ValuesLength(vs[1..], t, rest);
      var tail := PutValues(vs[1..], t, rest);
      assert vs[0] in vs;
      if t.StringType? { PutStringIsLonger(vs[0].t, tail); } else { ParsePutScalar(vs[0], t, tail); }
      var w := MinimumBytes(t).value;
      assert |vs| * w == w + (|vs| - 1) * w;
    }
  }

  lemma ParsePutEnumeration(values: seq<PropValue>, t: DataType, rest: Bytes)
    requires FormFits(Enumeration(values), t)
    ensures ParseEnumeration(PutLe(|values|, 2, PutValues(values, t, rest)), t) == Done(values, rest)
  {
    WidthBounds();
    ParsePutLe(|values|, 2, PutValues(values, t, rest));
    ParsePutValues(values, t, rest);
    ValuesLength(values, t, rest);
  }

  lemma ParsePutRange(form: PropForm, t: DataType, rest: Bytes)
    requires form.Range? && FormFits(form, t)
    ensures ParseForm(PutForm(form, t, rest), t) == Done(form, rest)
  {
    WidthBounds();
    var s4 := PutValue(form.step, t, rest);
    var s3 := PutValue(form.maximum, t, s4);
    var s2 := PutValue(form.minimum, t, s3);
    ParsePutLe(1, 1, s2);
    ParsePutValue(form.minimum, t, s3);
    ParsePutValue(form.maximum, t, s4);
    ParsePutValue(form.step, t, rest);
  }

  lemma ParsePutForm(form: PropForm, t: DataType, rest: Bytes)
    requires FormFits(form, t)
    ensures ParseForm(PutForm(form, t, rest), t) == Done(form, rest)
  {
    WidthBounds();
    match form
    case NoForm => ParsePutLe(0, 1, rest);
    case Range(_, _, _) => ParsePutRange(form, t, rest);
    case Enumeration(values) =>
      ParsePutLe(2, 1, PutLe(|values|, 2, PutValues(values, t, rest)));
      ParsePutEnumeration(values, t, rest);
  }

  lemma ParsePutHead(h: Head, rest: Bytes)
    ensures ParseHead(PutHead(h, rest)) == Done(h, rest)
  {
    WidthBounds();
    TypeCodes(h.dataType, 0);
    var getSet := if h.writable then 1 else 0;
    var s2 := PutLe(getSet, 1, rest);
    ParsePutLe(h.propertyCode, 2, PutLe(h.dataType.Code(), 2, s2));
    ParsePutLe(h.dataType.Code(), 2, s2);
    ParsePutLe(getSet, 1, rest);
  }

  /** Decoding the encoding of a descriptor gives it back exactly when its own values satisfy
      its form. */
  lemma DescRoundTrip(d: PropDesc)
    requires Encodable(d)
    ensures Decode(EncodeDesc(d)) == if InForm(d.factoryDefault, d.form) && InForm(d.current, d.form) then Some(d) else None
  {
    ParsePutHead(Head(d.propertyCode, d.dataType, d.writable), PutBody(d));
    ParsePutBody(d);
  }

  /** Number of elements of a decoded list. */
  function ListLength(v: PropValue): nat {
    if v.Array? then |v.items| else 0
  }

  ghost predicate ListsWithin(d: PropDesc, n: nat) {
    ListLength(d.factoryDefault) <= n && ListLength(d.current) <= n && FormListsWithin(d.form, n)
  }

  lemma ParsedListLength(s: Bytes, t: DataType)
    requires ParseValue(s, t).Done?
    ensures ListLength(ParseValue(s, t).value) <= |s| && ListLength(ParseValue(s, t).value) <= MAX_VALUES
  {
    ParsedInhabits(s, t);
    if t.Element().Some? {
      PutParseLe(s, 4);
      ParsedValuesInhabit(ParseLe(s, 4).rest, t.Element().value, ParseLe(s, 4).value);
    }
  }

  ghost predicate FormListsWithin(form: PropForm, n: nat) {
    match form
    case NoForm => true
    case Range(lo, hi, st) => ListLength(lo) <= n && ListLength(hi) <= n && ListLength(st) <= n
    case Enumeration(values) => |values| <= n
  }

  lemma ParsedRangeFits(s: Bytes, t: DataType)
    requires ParseValue(s, t).Done? && ParseValue(ParseValue(s, t).rest, t).Done?
    requires ParseValue(ParseValue(ParseValue(s, t).rest, t).rest, t).Done?
    ensures var p := ParseValue(s, t);
            var q := ParseValue(p.rest, t);
            var form := Range(p.value, q.value, ParseValue(q.rest, t).value);
            FormFits(form, t) && FormListsWithin(form, |s|)
  {
    ParsedInhabits(s, t);
    ParsedListLength(s, t);
    var s2 := ParseValue(s, t).rest;
    ParsedInhabits(s2, t);
    ParsedListLength(s2, t);
    var s3 := ParseValue(s2, t).rest;
    ParsedInhabits(s3, t);
    ParsedListLength(s3, t);
  }

  lemma ParsedEnumerationFits(s: Bytes, t: DataType)
    requires ParseEnumeration(s, t).Done?
    ensures var form := Enumeration(ParseEnumeration(s, t).value);
            FormFits(form, t) && FormListsWithin(form, |s|)
  {
    WidthBounds();
    PutParseLe(s, 2);
    ParsedValuesInhabit(ParseLe(s, 2).rest, t, ParseLe(s, 2).value);
  }

  lemma ParsedFormFits(s: Bytes, t: DataType)
    requires ParseForm(s, t).Done?
    ensures FormFits(ParseForm(s, t).value, t) && FormListsWithin(ParseForm(s, t).value, |s|)
  {
    PutParseLe(s, 1);
    var tag, s1 := ParseLe(s, 1).value, ParseLe(s, 1).rest;
    if tag == 1 { ParsedRangeFits(s1, t); }
    if tag == 2 { ParsedEnumerationFits(s1, t); }
  }

  lemma ParsedBodyFits(s: Bytes, propertyCode: U16, t: DataType, writable: bool)
    requires ParseBody(s, propertyCode, t, writable).Done?
    ensures var d := ParseBody(s, propertyCode, t, writable).value;
            Encodable(d) && ListsWithin(d, if |s| < MAX_VALUES then |s| else MAX_VALUES)
  {
    ParsedInhabits(s, t);
    ParsedListLength(s, t);
    var s1 := ParseValue(s, t).rest;
    ParsedInhabits(s1, t);
    ParsedListLength(s1, t);
    var s2 := ParseValue(s1, t).rest;
    ParsedFormFits(s2, t);
    FormListsWithinBudget(ParseForm(s2, t).value, t);
  }

  /** Whatever decodes is a well-formed descriptor whose default and current value satisfy its
      form, and no decoded list is longer than the input or the budget. */
  lemma DecodedIsWellFormed(s: Bytes)
    requires Decode(s).Some?
    ensures var d := Decode(s).value;
            && Encodable(d) && DeclaredValuesHold(d)
            && InForm(d.factoryDefault, d.form) && InForm(d.current, d.form)
            && ListsWithin(d, if |s| < MAX_VALUES then |s| else MAX_VALUES)
  {
    HeadIsShorter(s);
    var h := ParseHead(s);
    ParsedBodyFits(h.rest, h.value.propertyCode, h.value.dataType, h.value.writable);
  }

  lemma HeadIsShorter(s: Bytes)
    requires ParseHead(s).Done?
    ensures |ParseHead(s).rest| == |s| - 5
  {}

  lemma FormListsWithinBudget(form: PropForm, t: DataType)
    requires FormFits(form, t)
    ensures FormListsWithin(form, MAX_VALUES)
  {}

  // ---------- candidates ----------

  /** `validate_serialized_candidate`. */
  predicate Accepts(d: PropDesc, candidate: Bytes) {
    && d.writable
    && match ParseValue(candidate, d.dataType)
       case Fail => false
       case Done(v, rest) => rest == [] && InForm(v, d.form)
  }

  /** The bytes spell this value: its encoding, or the one-unit spelling of the empty string. */
  predicate Spells(candidate: Bytes, v: PropValue, t: DataType) {
    && Inhabits(v, t)
    && (candidate == PutValue(v, t, []) || (t.StringType? && v == Str([]) && candidate == [1, 0, 0]))
  }

  lemma SpelledParses(candidate: Bytes, v: PropValue, t: DataType)
    requires Spells(candidate, v, t)
    ensures ParseValue(candidate, t) == Done(v, [])
  {
    if candidate == PutValue(v, t, []) {
      ParsePutValue(v, t, []);
    } else {
      UnitFormParses([]);
      assert candidate == [1, 0, 0] + [];
    }
  }

  lemma ParsedSpells(candidate: Bytes, t: DataType)
    requires ParseValue(candidate, t).Done? && ParseValue(candidate, t).rest == []
    ensures Spells(candidate, ParseValue(candidate, t).value, t)
  {
    ParsedInhabits(candidate, t);
  }

  /** A write is let through exactly when the property is writable and the bytes spell a value
      of its type that lies in its form. */
  lemma AcceptanceIsExact(d: PropDesc, candidate: Bytes)
    ensures Accepts(d, candidate) <==>
              d.writable && exists v :: Spells(candidate, v, d.dataType) && InForm(v, d.form)
  {
    hide ParseValue, Spells, InForm;
    if Accepts(d, candidate) {
      ParsedSpells(candidate, d.dataType);
    }
    if v :| Spells(candidate, v, d.dataType) && InForm(v, d.form) {
      SpelledParses(candidate, v, d.dataType);
    }
  }

  /** What a form admits, and the one case the range check refuses beyond that: a signed distance
      from the minimum that does not fit 128 bits. */
  ghost predicate Admits(form: PropForm, v: PropValue) {
    match form
    case NoForm => true
    case Enumeration(values) => exists i :: 0 <= i < |values| && values[i] == v
    case Range(lo, hi, st) =>
      || (v.Int? && lo.Int? && hi.Int? && st.Int? && OnGrid(v.i, lo.i, hi.i, st.i)
          && v.i - lo.i <= 0x7FFF_FFFF_FFFF_FFFF_FFFF_FFFF_FFFF_FFFF)
      || (v.UInt? && lo.UInt? && hi.UInt? && st.UInt? && OnGrid(v.u, lo.u, hi.u, st.u))
  }

  lemma FormMeaning(v: PropValue, form: PropForm)
    ensures InForm(v, form) <==> Admits(form, v)
  {
    hide OnGrid, ValueIsInRange;
    if form.Range? { RangeMeaning(v, form.minimum, form.maximum, form.step); }
  }

  /** So for every form: a candidate is accepted exactly when the property is writable and the
      candidate spells a value of the type that the form admits. */
  lemma CandidateIsExact(d: PropDesc, candidate: Bytes)
    ensures Accepts(d, candidate) <==> d.writable && exists v :: Spells(candidate, v, d.dataType) && Admits(d.form, v)
  {
    AcceptanceIsExact(d, candidate);
    hide Accepts, Spells, InForm, Admits;
    forall v ensures InForm(v, d.form) <==> Admits(d.form, v) { FormMeaning(v, d.form); }
  }

  /** Under a range form, for every type: the encoding of a value is accepted exactly when the
      value is a whole number of steps from the minimum, within the maximum, and, if signed, at
      a distance that fits 128 bits. */
  lemma RangeCandidateIsExact(d: PropDesc, v: PropValue)
    requires d.writable && d.form.Range? && Inhabits(v, d.dataType)
    ensures var (lo, hi, st) := (d.form.minimum, d.form.maximum, d.form.step);
            Accepts(d, PutValue(v, d.dataType, [])) <==>
              || (v.Int? && lo.Int? && hi.Int? && st.Int? && OnGrid(v.i, lo.i, hi.i, st.i) && v.i - lo.i <= I128_MAX)
              || (v.UInt? && lo.UInt? && hi.UInt? && st.UInt? && OnGrid(v.u, lo.u, hi.u, st.u))
  {
    hide OnGrid, ValueIsInRange;
    ParsePutValue(v, d.dataType, []);
    RangeMeaning(v, d.form.minimum, d.form.maximum, d.form.step);
  }

  /** A signed 128-bit property from the minimum to zero, in steps of one. */
  function WideDescriptor(propertyCode: U16): PropDesc {
    PropDesc(propertyCode, Int128, true, Int(I128_MIN), Int(I128_MIN), Range(Int(I128_MIN), Int(0), Int(1)))
  }

  lemma WideValues()
    ensures Inhabits(Int(I128_MIN), Int128) && Inhabits(Int(0), Int128) && Inhabits(Int(1), Int128)
  {
    WidthBounds();
    assert Half(16) == -I128_MIN;
  }

  lemma WideDescriptorDecodes(propertyCode: U16)
    ensures var d := WideDescriptor(propertyCode);
            Encodable(d) && Decode(EncodeDesc(d)) == Some(d) && OnGrid(0, d.form.minimum.i, d.form.maximum.i, d.form.step.i)
  {
    hide Inhabits, Decode, EncodeDesc, ValueIsInRange;
    var d := WideDescriptor(propertyCode);
    WideValues();
    assert I128_MIN == AtStep(I128_MIN, 0, 1) && 0 == AtStep(I128_MIN, -I128_MIN, 1);
    RangeMeaning(d.current, d.form.minimum, d.form.maximum, d.form.step);
    DescRoundTrip(d);
  }

  /** The distance matters: this descriptor decodes, zero lies on its grid, and the encoding of
      zero is refused. */
  lemma WideRangeCanRefuse(propertyCode: U16)
    ensures var d := WideDescriptor(propertyCode);
            && Encodable(d) && Decode(EncodeDesc(d)) == Some(d)
            && Inhabits(Int(0), d.dataType) && OnGrid(0, d.form.minimum.i, d.form.maximum.i, d.form.step.i)
            && !Accepts(d, PutValue(Int(0), d.dataType, []))
  {
    WideValues();
    WideDescriptorDecodes(propertyCode);
    RangeCandidateIsExact(WideDescriptor(propertyCode), Int(0));
    hide Accepts, Decode, EncodeDesc, PutValue, OnGrid, Encodable;
  }

  /** A value read from the camera can be written back. */
  lemma LiveValueCanBeWrittenBack(s: Bytes)
    requires Decode(s).Some? && Decode(s).value.writable
    ensures var d := Decode(s).value;
            Inhabits(d.current, d.dataType) && Accepts(d, PutValue(d.current, d.dataType, []))
  {
    DecodedIsWellFormed(s);
    var d := Decode(s).value;
    ParsePutValue(d.current, d.dataType, []);
  }

  /** The same for a statically declared descriptor: its live bytes are accepted as they came. */
  lemma StaticLiveValueCanBeWrittenBack(propertyCode: U16, t: DataType, form: PropForm, bytes: Bytes)
    requires FromStatic(propertyCode, t, form, bytes).Some?
    ensures var d := FromStatic(propertyCode, t, form, bytes).value;
            && d.writable && Inhabits(d.current, t)
            && Accepts(d, bytes) && Accepts(d, PutValue(d.current, t, []))
  {
    var d := FromStatic(propertyCode, t, form, bytes).value;
    ParsedInhabits(bytes, t);
    ParsePutValue(d.current, t, []);
  }
}
