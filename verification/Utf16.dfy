/** UTF-16 as sections 2.1 and 2.2 of RFC 2781 define it, and the two PTP string forms
    built on it. */
module Utf16 {
  import opened Wrappers
  import opened Wire

  /** A Unicode scalar value: what one `char` of a string holds. */
  type Scalar = c: int | 0 <= c < 0xD800 || 0xE000 <= c < 0x11_0000

  type Text = seq<Scalar>

  predicate IsHigh(u: nat) { 0xD800 <= u < 0xDC00 }

  predicate IsLow(u: nat) { 0xDC00 <= u < 0xE000 }

  function EncodeScalar(c: Scalar): (u: seq<U16>)
    ensures 1 <= |u| <= 2
  {
    if c < 0x1_0000 then [c]
    else [HighOf(c), LowOf(c)]
  }

  function HighOf(c: int): (u: int)
    requires 0x1_0000 <= c < 0x11_0000
    ensures 0xD800 <= u < 0xDC00
  {
    0xD800 + (c - 0x1_0000) / 0x400
  }

  function LowOf(c: int): (u: int)
    requires 0x1_0000 <= c < 0x11_0000
    ensures 0xDC00 <= u < 0xE000
  {
    0xDC00 + (c - 0x1_0000) % 0x400
  }

  function Join(high: nat, low: nat): (c: Scalar)
    requires IsHigh(high) && IsLow(low)
    ensures 0x1_0000 <= c < 0x11_0000
    ensures HighOf(c) == high && LowOf(c) == low
  {
    0x1_0000 + (high - 0xD800) * 0x400 + (low - 0xDC00)
  }

  function EncodeUtf16(t: Text): (u: seq<nat>)
  {
    if t == [] then [] else EncodeScalar(t[0]) + EncodeUtf16(t[1..])
  }

  /** `String::from_utf16`: fails on a surrogate without its partner. */
  function DecodeUtf16(u: seq<nat>): Option<Text>
    requires FitWidth(u, 2)
  {
    WidthBounds();
    if u == [] then Some([])
    else if IsHigh(u[0]) then
      if |u| < 2 || !IsLow(u[1]) then None
      else
        match DecodeUtf16(u[2..])
        case None => None
        case Some(t) => Some([Join(u[0], u[1])] + t)
    else if IsLow(u[0]) then None
    else
      match DecodeUtf16(u[1..])
      case None => None
      case Some(t) => Some([u[0]] + t)
  }

  lemma {:induction false} EncodeFits(t: Text)
    ensures FitWidth(EncodeUtf16(t), 2)
    decreases t
  {
    WidthBounds();
    if t != [] { EncodeFits(t[1..]); }
  }

  lemma DecodeScalar(c: Scalar, u: seq<nat>)
    requires FitWidth(u, 2)
    ensures FitWidth(EncodeScalar(c) + u, 2)
    ensures DecodeUtf16(EncodeScalar(c) + u) ==
              match DecodeUtf16(u) case None => None case Some(t) => Some([c] + t)
  {
    WidthBounds();
    var all := EncodeScalar(c) + u;
    assert all[|EncodeScalar(c)|..] == u;
    if c >= 0x1_0000 {
      assert all[0] == HighOf(c) && all[1] == LowOf(c);
      JoinSplits(c);
    }
  }

  lemma JoinSplits(c: Scalar)
    requires c >= 0x1_0000
    ensures Join(HighOf(c), LowOf(c)) == c
  {}

  lemma {:induction false} DecodeEncode(t: Text)
    ensures FitWidth(EncodeUtf16(t), 2) && DecodeUtf16(EncodeUtf16(t)) == Some(t)
    decreases t
  {
    EncodeFits(t);
    if t != [] {
      DecodeEncode(t[1..]);
      hide DecodeUtf16, EncodeScalar;
      DecodeScalar(t[0], EncodeUtf16(t[1..]));
      assert t == [t[0]] + t[1..];
    }
  }

  lemma EncodeCons(c: Scalar, t: Text)
    ensures EncodeUtf16([c] + t) == EncodeScalar(c) + EncodeUtf16(t)
  {
    assert ([c] + t)[1..] == t;
  }

  lemma JoinedIsPair(high: nat, low: nat)
    requires IsHigh(high) && IsLow(low)
    ensures EncodeScalar(Join(high, low)) == [high, low]
  {}

  lemma {:induction false} EncodeDecode(u: seq<nat>)
    requires FitWidth(u, 2) && DecodeUtf16(u).Some?
    ensures EncodeUtf16(DecodeUtf16(u).value) == u
  {
    hide EncodeUtf16, EncodeScalar, Join;
    WidthBounds();
    if u == [] {
      EncodeNothing();
    } else if IsHigh(u[0]) {
      EncodeDecode(u[2..]);
      JoinedIsPair(u[0], u[1]);
      EncodeCons(Join(u[0], u[1]), DecodeUtf16(u[2..]).value);
      assert u == [u[0], u[1]] + u[2..];
    } else {
      EncodeDecode(u[1..]);
      SingleUnit(u[0]);
      EncodeCons(u[0], DecodeUtf16(u[1..]).value);
      assert u == [u[0]] + u[1..];
    }
  }

  lemma EncodeNothing()
    ensures EncodeUtf16([]) == []
  {}

  lemma SingleUnit(c: Scalar)
    requires c < 0x1_0000
    ensures EncodeScalar(c) == [c]
  {}

  // ---------- null-terminated PTP strings ----------

  /** A length byte counting the terminator, that many units, and a zero terminator;
      length zero alone is the empty string. */
  function ParseString(s: Bytes): Parsed<Text> {
    var (len, s1) :- ParseLe(s, 1);
    if len == 0 then Done([], s1)
    else
      var (units, s2) :- ParseMany(s1, 2, len - 1);
      var (terminator, s3) :- ParseLe(s2, 2);
      if terminator != 0 then Fail
      else
        PutParseMany(s1, 2, len - 1);
        match DecodeUtf16(units)
        case None => Fail
        case Some(t) => Done(t, s3)
  }

  predicate StringFits(t: Text) {
    |EncodeUtf16(t)| <= 254
  }

  function PutString(t: Text, rest: Bytes): Bytes
    requires StringFits(t)
  {
    var units := EncodeUtf16(t);
    if units == [] then [0] + rest
    else PutLe(|units| + 1, 1, PutMany(units, 2, PutLe(0, 2, rest)))
  }

  lemma ParsePutString(t: Text, rest: Bytes)
    requires StringFits(t)
    ensures ParseString(PutString(t, rest)) == Done(t, rest)
  {
    var units := EncodeUtf16(t);
    DecodeEncode(t);
    WidthBounds();
    if units == [] {
      assert t == [];
      assert LeBytes(0, 1) == [0];
      ParsePutLe(0, 1, rest);
    } else {
      var tail := PutLe(0, 2, rest);
      ParsePutLe(|units| + 1, 1, PutMany(units, 2, tail));
      ParsePutMany(units, 2, tail);
      ParsePutLe(0, 2, rest);
    }
  }

  /** Set when the bytes ahead use the one-unit empty form: a length of one, so nothing but
      the terminator. It reads like length zero but is two bytes longer. */
  predicate UnitForm(s: Bytes) {
    s != [] && s[0] == 1
  }

  /** Every string that reads also prints, and prints the bytes it came from unless they were
      the one-unit empty form; that one prints two bytes shorter. */
  lemma PutParseString(s: Bytes)
    requires ParseString(s).Done?
    ensures var p := ParseString(s);
            && StringFits(p.value)
            && (UnitForm(s) ==> p.value == [] && |PutString(p.value, p.rest)| == |s| - 2)
            && (!UnitForm(s) ==> PutString(p.value, p.rest) == s)
  {
    var p := ParseString(s);
    WidthBounds();
    PutParseLe(s, 1);
    var len, s1 := ParseLe(s, 1).value, ParseLe(s, 1).rest;
    FirstByte(s);
    if len == 0 {
      assert s == [0] + s1;
    } else {
      PutParseMany(s1, 2, len - 1);
      var units, s2 := ParseMany(s1, 2, len - 1).value, ParseMany(s1, 2, len - 1).rest;
      PutParseLe(s2, 2);
      EncodeDecode(units);
    }
  }

  lemma FirstByte(s: Bytes)
    requires s != []
    ensures ParseLe(s, 1) == Done(s[0], s[1..])
  {}

  /** The one-unit empty form is these three bytes, whatever follows. */
  lemma UnitFormBytes(s: Bytes)
    requires UnitForm(s) && ParseString(s).Done?
    ensures s == [1, 0, 0] + ParseString(s).rest
  {
    FirstByte(s);
    var s1 := s[1..];
    PutParseLe(s1, 2);
    ZeroWord();
    assert s == [s[0]] + s1;
  }

  lemma UnitFormParses(rest: Bytes)
    ensures ParseString([1, 0, 0] + rest) == Done([], rest) && UnitForm([1, 0, 0] + rest)
  {
    var s: Bytes := [1, 0, 0] + rest;
    FirstByte(s);
    assert s[1..] == PutLe(0, 2, rest) by { ZeroWord(); }
    WidthBounds();
    ParsePutLe(0, 2, rest);
  }

  lemma ZeroWord()
    ensures LeBytes(0, 2) == [0, 0]
  {
    assert LeBytes(0, 2) == [0] + LeBytes(0, 1);
    assert LeBytes(0, 1) == [0] + LeBytes(0, 0);
  }

  /** What the writer writes is never in that form. */
  lemma WrittenIsNotUnitForm(t: Text, rest: Bytes)
    requires StringFits(t)
    ensures !UnitForm(PutString(t, rest))
  {
    ParsePutString(t, rest);
    PutParseString(PutString(t, rest));
  }

  // ---------- exact PTP strings ----------

  /** A length byte and that many units, no terminator. */
  function ParseExact(s: Bytes): Parsed<Text> {
    var (len, s1) :- ParseLe(s, 1);
    var (units, s2) :- ParseMany(s1, 2, len);
    PutParseMany(s1, 2, len);
    match DecodeUtf16(units)
    case None => Fail
    case Some(t) => Done(t, s2)
  }

  predicate ExactFits(t: Text) {
    |EncodeUtf16(t)| <= 255
  }

  function PutExact(t: Text, rest: Bytes): Bytes
    requires ExactFits(t)
  {
    PutLe(|EncodeUtf16(t)|, 1, PutMany(EncodeUtf16(t), 2, rest))
  }

  lemma ParsePutExact(t: Text, rest: Bytes)
    requires ExactFits(t)
    ensures ParseExact(PutExact(t, rest)) == Done(t, rest)
  {
    DecodeEncode(t);
    WidthBounds();
    ParsePutLe(|EncodeUtf16(t)|, 1, PutMany(EncodeUtf16(t), 2, rest));
    ParsePutMany(EncodeUtf16(t), 2, rest);
  }

  lemma PutParseExact(s: Bytes)
    requires ParseExact(s).Done?
    ensures var p := ParseExact(s); ExactFits(p.value) && PutExact(p.value, p.rest) == s
  {
    WidthBounds();
    PutParseLe(s, 1);
    var len, s1 := ParseLe(s, 1).value, ParseLe(s, 1).rest;
    PutParseMany(s1, 2, len);
    EncodeDecode(ParseMany(s1, 2, len).value);
  }

  // ---------- reading strings from a cursor ----------

  method ReadString(reader: Reader) returns (r: Option<Text>)
    requires reader.Valid()
    modifies reader
    ensures reader.Valid()
    ensures Agrees(r, reader.Rest(), ParseString(old(reader.Rest())))
  {
    var len := reader.ReadLe(1);
    if len.None? { return None; }
    if len.value == 0 { return Some([]); }
    ghost var s1 := reader.Rest();
    var units := reader.ReadMany(2, len.value - 1);
    if units.None? { return None; }
    var terminator := reader.ReadLe(2);
    if terminator.None? || terminator.value != 0 { return None; }
    PutParseMany(s1, 2, len.value - 1);
    r := DecodeUtf16(units.value);
  }

  method ReadExact(reader: Reader) returns (r: Option<Text>)
    requires reader.Valid()
    modifies reader
    ensures reader.Valid()
    ensures Agrees(r, reader.Rest(), ParseExact(old(reader.Rest())))
  {
    var len := reader.ReadLe(1);
    if len.None? { return None; }
    ghost var s1 := reader.Rest();
    var units := reader.ReadMany(2, len.value);
    if units.None? { return None; }
    PutParseMany(s1, 2, len.value);
    r := DecodeUtf16(units.value);
  }
}
