/** The PTP data codec: arrays, padding, and fixed sequences of fields read and written in
    order, which is what the dataset structs derive. */
module Codec {
  import opened Wrappers
  import opened Wire
  import opened Utf16

  const MAX_ARRAY_ELEMENTS := 1_000_000
  const MAX_ARRAY_ALLOCATION_BYTES := 64 * 1024 * 1024
  const PADDING_IO_CHUNK_BYTES := 4 * 1024

  // ---------- arrays ----------

  /** A u32 count and that many elements. The count is checked against the element limit, the
      allocation budget and the bytes that remain before any element is read. */
  function ParseArray(s: Bytes, width: nat): Parsed<seq<nat>> {
    var (count, s1) :- ParseLe(s, 4);
    if count > MAX_ARRAY_ELEMENTS then Fail
    else if count * width > MAX_ARRAY_ALLOCATION_BYTES then Fail
    else if count * width > |s1| then Fail
    else ParseMany(s1, width, count)
  }

  predicate ArrayFits(vs: seq<nat>, width: nat) {
    |vs| <= 1_000_000 && |vs| * width <= 67_108_864 && FitWidth(vs, width)
  }

  function PutArray(vs: seq<nat>, width: nat, rest: Bytes): Bytes {
    PutLe(|vs|, 4, PutMany(vs, width, rest))
  }

  lemma ParsePutArray(vs: seq<nat>, width: nat, rest: Bytes)
    requires ArrayFits(vs, width)
    ensures ParseArray(PutArray(vs, width, rest), width) == Done(vs, rest)
  {
    WidthBounds();
    ParsePutLe(|vs|, 4, PutMany(vs, width, rest));
    ParsePutMany(vs, width, rest);
  }

  lemma PutParseArray(s: Bytes, width: nat)
    requires ParseArray(s, width).Done?
    ensures var p := ParseArray(s, width);
            ArrayFits(p.value, width) && PutArray(p.value, width, p.rest) == s
  {
    PutParseLe(s, 4);
    var p := ParseLe(s, 4);
    PutParseMany(p.rest, width, p.value);
  }

  /** The remaining-bytes check refuses nothing the element loop would have read. */
  lemma BudgetCheckIsExact(s: Bytes, width: nat)
    ensures ParseArray(s, width).Done? <==>
            && ParseLe(s, 4).Done?
            && var p := ParseLe(s, 4);
            && p.value <= 1_000_000 && p.value * width <= 67_108_864
            && ParseMany(p.rest, width, p.value).Done?
  {
    var p := ParseLe(s, 4);
    if p.Done? && ParseMany(p.rest, width, p.value).Done? {
      PutParseMany(p.rest, width, p.value);
    }
    if p.Done? && p.value * width <= |p.rest| {
      ManyAvailable(p.rest, width, p.value);
    }
  }

  lemma {:induction false} ManyAvailable(s: Bytes, width: nat, n: nat)
    requires n * width <= |s|
    ensures ParseMany(s, width, n).Done?
    decreases n
  {
    if n != 0 {
      assert n * width == width + (n - 1) * width;
      assert (n - 1) * width >= 0;
      ManyAvailable(s[width..], width, n - 1);
    }
  }

  // ---------- fields in sequence ----------

  datatype FieldType = UInt(width: nat) | StringField | CodesField

  datatype Field = Num(v: nat) | Str(t: Text) | Codes(vs: seq<nat>)

  predicate FieldFits(f: Field, t: FieldType) {
    match t
    case UInt(width) => f.Num? && f.v < Pow256(width)
    case StringField => f.Str? && StringFits(f.t)
    case CodesField => f.Codes? && ArrayFits(f.vs, 2)
  }

  /** The types alone: what the declared Rust types of a dataset guarantee. */
  predicate Typed(f: Field, t: FieldType) {
    match t
    case UInt(width) => f.Num? && f.v < Pow256(width)
    case StringField => f.Str?
    case CodesField => f.Codes? && FitWidth(f.vs, 2)
  }

  predicate AllTyped(fs: seq<Field>, ts: seq<FieldType>) {
    |fs| == |ts| && forall i | 0 <= i < |fs| :: Typed(fs[i], ts[i])
  }

  /** What the writer accepts: it refuses long strings, and arrays only past a u32 count. */
  predicate Printable(f: Field, t: FieldType) {
    Typed(f, t) && (t.StringField? ==> StringFits(f.t)) && (t.CodesField? ==> |f.vs| < 0x1_0000_0000)
  }

  predicate AllPrintable(fs: seq<Field>, ts: seq<FieldType>) {
    |fs| == |ts| && forall i | 0 <= i < |fs| :: Printable(fs[i], ts[i])
  }

  /** What the writer accepts and the reader takes back. */
  predicate FieldsFit(fs: seq<Field>, ts: seq<FieldType>) {
    |fs| == |ts| && forall i | 0 <= i < |fs| :: FieldFits(fs[i], ts[i])
  }

  function ParseField(s: Bytes, t: FieldType): Parsed<Field> {
    match t
    case UInt(width) => var (v, r) :- ParseLe(s, width); Done(Num(v), r)
    case StringField => var (v, r) :- ParseString(s); Done(Str(v), r)
    case CodesField => var (v, r) :- ParseArray(s, 2); Done(Codes(v), r)
  }

  function ParseFields(s: Bytes, ts: seq<FieldType>): Parsed<seq<Field>>
    decreases ts
  {
    if ts == [] then Done([], s)
    else
      var (f, s1) :- ParseField(s, ts[0]);
      var (fs, s2) :- ParseFields(s1, ts[1..]);
      Done([f] + fs, s2)
  }

  function PutField(f: Field, t: FieldType, rest: Bytes): Bytes
    requires Printable(f, t)
  {
    match t
    case UInt(width) => PutLe(f.v, width, rest)
    case StringField => PutString(f.t, rest)
    case CodesField => PutArray(f.vs, 2, rest)
  }

  function PutFields(fs: seq<Field>, ts: seq<FieldType>, rest: Bytes): Bytes
    requires AllPrintable(fs, ts)
    decreases ts
  {
    if ts == [] then rest else PutField(fs[0], ts[0], PutFields(fs[1..], ts[1..], rest))
  }

  /** How many string fields of the input use the one-unit empty form. */
  function UnitForms(s: Bytes, ts: seq<FieldType>): nat
    decreases ts
  {
    if ts == [] then 0
    else
      match ParseField(s, ts[0])
      case Fail => 0
      case Done(_, s1) =>
        (if ts[0].StringField? && UnitForm(s) then 1 else 0) + UnitForms(s1, ts[1..])
  }

  /** A printed field reads back, unless it is an array past the reader's element limit. */
  lemma ParsePutField(f: Field, t: FieldType, rest: Bytes)
    requires Printable(f, t)
    ensures ParseField(PutField(f, t, rest), t) == if FieldFits(f, t) then Done(f, rest) else Fail
  {
    match t
    case UInt(width) => ParsePutLe(f.v, width, rest);
    case StringField => ParsePutString(f.t, rest);
    case CodesField =>
      if FieldFits(f, t) {
        ParsePutArray(f.vs, 2, rest);
      } else {
        WidthBounds();
        ParsePutLe(|f.vs|, 4, PutMany(f.vs, 2, rest));
      }
  }

  lemma {:induction false} ParsePutFields(fs: seq<Field>, ts: seq<FieldType>, rest: Bytes)
    requires AllPrintable(fs, ts)
    ensures ParseFields(PutFields(fs, ts, rest), ts) == if FieldsFit(fs, ts) then Done(fs, rest) else Fail
    decreases ts
  {
    if ts == [] {
      assert fs == [];
    } else {
      var tail := PutFields(fs[1..], ts[1..], rest);
      ParsePutField(fs[0], ts[0], tail);
      ParsePutFields(fs[1..], ts[1..], rest);
      assert fs == [fs[0]] + fs[1..];
      assert FieldsFit(fs, ts) <==> FieldFits(fs[0], ts[0]) && FieldsFit(fs[1..], ts[1..]) by {
        SplitFit(fs, ts);
      }
    }
  }

  lemma SplitFit(fs: seq<Field>, ts: seq<FieldType>)
    requires |fs| == |ts| && ts != []
    ensures FieldsFit(fs, ts) <==> FieldFits(fs[0], ts[0]) && FieldsFit(fs[1..], ts[1..])
  {}

  lemma PutParseField(s: Bytes, t: FieldType)
    requires ParseField(s, t).Done?
    ensures var p := ParseField(s, t);
            && FieldFits(p.value, t)
            && (t.StringField? && UnitForm(s) ==> |PutField(p.value, t, p.rest)| == |s| - 2)
            && (!(t.StringField? && UnitForm(s)) ==> PutField(p.value, t, p.rest) == s)
  {
    match t
    case UInt(width) => PutParseLe(s, width);
    case StringField => PutParseString(s);
    case CodesField => PutParseArray(s, 2);
  }

  /** Printing extends its tail: what follows only moves. */
  lemma {:induction false} PutManyAppends(vs: seq<nat>, width: nat, rest: Bytes)
    ensures PutMany(vs, width, rest) == PutMany(vs, width, []) + rest
    decreases vs
  {
    if vs != [] { PutManyAppends(vs[1..], width, rest); }
  }

  lemma PutFieldAppends(f: Field, t: FieldType, rest: Bytes)
    requires Printable(f, t)
    ensures PutField(f, t, rest) == PutField(f, t, []) + rest
  {
    match t
    case UInt(width) =>
    case StringField =>
      var units := EncodeUtf16(f.t);
      PutManyAppends(units, 2, PutLe(0, 2, rest));
      PutManyAppends(units, 2, PutLe(0, 2, []));
      assert PutLe(0, 2, rest) == PutLe(0, 2, []) + rest;
    case CodesField =>
      PutManyAppends(f.vs, 2, rest);
      PutManyAppends(f.vs, 2, []);
  }

  /** Every field list that reads also prints, two bytes shorter for each one-unit empty
      string, and byte for byte when there is none. */
  lemma {:induction false} PutParseFields(s: Bytes, ts: seq<FieldType>)
    requires ParseFields(s, ts).Done?
    ensures var p := ParseFields(s, ts);
            && FieldsFit(p.value, ts)
            && |PutFields(p.value, ts, p.rest)| + 2 * UnitForms(s, ts) == |s|
            && (UnitForms(s, ts) == 0 ==> PutFields(p.value, ts, p.rest) == s)
    decreases ts
  {
    if ts != [] {
      PutParseField(s, ts[0]);
      var f, s1 := ParseField(s, ts[0]).value, ParseField(s, ts[0]).rest;
      PutParseFields(s1, ts[1..]);
      var p := ParseFields(s, ts);
      assert p.value[1..] == ParseFields(s1, ts[1..]).value;
      var tail := PutFields(p.value[1..], ts[1..], p.rest);
      PutFieldAppends(f, ts[0], tail);
      PutFieldAppends(f, ts[0], s1);
    }
  }

  // ---------- whole values ----------

  /** `decode_exact`: the layout must consume the input completely. */
  function DecodeFields(s: Bytes, ts: seq<FieldType>): Option<seq<Field>> {
    match ParseFields(s, ts)
    case Fail => None
    case Done(fs, rest) => if rest == [] then Some(fs) else None
  }

  /** `encode`: fails when a field cannot be written. */
  function EncodeFields(fs: seq<Field>, ts: seq<FieldType>): Option<Bytes>
    requires AllTyped(fs, ts)
  {
    if AllPrintable(fs, ts) then Some(PutFields(fs, ts, [])) else None
  }

  /** What was written is read back exactly when every array is within the reader's limits. */
  lemma DecodeEncodeFields(fs: seq<Field>, ts: seq<FieldType>)
    requires AllTyped(fs, ts) && EncodeFields(fs, ts).Some?
    ensures DecodeFields(EncodeFields(fs, ts).value, ts) == if FieldsFit(fs, ts) then Some(fs) else None
  {
    ParsePutFields(fs, ts, []);
  }

  lemma EncodeDecodeFields(s: Bytes, ts: seq<FieldType>)
    requires DecodeFields(s, ts).Some?
    ensures FieldsFit(DecodeFields(s, ts).value, ts)
    ensures EncodeFields(DecodeFields(s, ts).value, ts).Some?
    ensures EncodeFields(DecodeFields(s, ts).value, ts) == Some(s) <==> UnitForms(s, ts) == 0
  {
    PutParseFields(s, ts);
  }

  // ---------- all spellings of a value ----------

  /** Marks string fields to spell in the one-unit empty form. */
  predicate Spelling(fs: seq<Field>, ts: seq<FieldType>, long: seq<bool>) {
    |fs| == |ts| == |long| && forall i | 0 <= i < |ts| && long[i] :: IsEmptyString(fs[i], ts[i])
  }

  predicate IsEmptyString(f: Field, t: FieldType) {
    t.StringField? && f == Str([])
  }

  function PutSpelled(fs: seq<Field>, ts: seq<FieldType>, long: seq<bool>, rest: Bytes): Bytes
    requires AllPrintable(fs, ts) && Spelling(fs, ts, long)
    decreases ts
  {
    if ts == [] then rest
    else
      var tail := PutSpelled(fs[1..], ts[1..], long[1..], rest);
      if long[0] then [1, 0, 0] + tail else PutField(fs[0], ts[0], tail)
  }

  function Marked(long: seq<bool>): nat {
    if long == [] then 0 else (if long[0] then 1 else 0) + Marked(long[1..])
  }

  /** Every spelling reads back, and the input's one-unit forms are the marked fields. */
  lemma {:induction false} SpellingReads(fs: seq<Field>, ts: seq<FieldType>, long: seq<bool>, rest: Bytes)
    requires FieldsFit(fs, ts) && AllPrintable(fs, ts) && Spelling(fs, ts, long)
    ensures ParseFields(PutSpelled(fs, ts, long, rest), ts) == Done(fs, rest)
    ensures UnitForms(PutSpelled(fs, ts, long, rest), ts) == Marked(long)
    decreases ts
  {
    hide FieldFits, Printable, ParseField, PutField, UnitForm, IsEmptyString;
    if ts == [] {
      assert fs == [];
    } else {
      var tail := PutSpelled(fs[1..], ts[1..], long[1..], rest);
      SpellingReads(fs[1..], ts[1..], long[1..], rest);
      SpelledFieldReads(fs[0], ts[0], long[0], tail);
      assert fs == [fs[0]] + fs[1..];
    }
  }

  lemma SpelledFieldReads(f: Field, t: FieldType, long: bool, tail: Bytes)
    requires FieldFits(f, t) && Printable(f, t) && (long ==> IsEmptyString(f, t))
    ensures var s := if long then [1, 0, 0] + tail else PutField(f, t, tail);
            && ParseField(s, t) == Done(f, tail)
            && (t.StringField? ==> (UnitForm(s) <==> long))
            && (long ==> t.StringField?)
  {
    if long {
      UnitFormParses(tail);
    } else {
      ParsePutField(f, t, tail);
      if t.StringField? { WrittenIsNotUnitForm(f.t, tail); }
    }
  }

  /** Every input that reads is a spelling of what it reads as. */
  lemma {:induction false} ReadIsSpelling(s: Bytes, ts: seq<FieldType>) returns (long: seq<bool>)
    requires ParseFields(s, ts).Done?
    ensures var p := ParseFields(s, ts);
            && FieldsFit(p.value, ts) && AllPrintable(p.value, ts) && Spelling(p.value, ts, long)
            && PutSpelled(p.value, ts, long, p.rest) == s
    decreases ts
  {
    hide FieldFits, Printable, ParseField, PutField, IsEmptyString;
    PutParseFields(s, ts);
    if ts == [] { return []; }
    var f, s1 := ParseField(s, ts[0]).value, ParseField(s, ts[0]).rest;
    var tail := ReadIsSpelling(s1, ts[1..]);
    var mark := ReadFieldIsSpelling(s, ts[0]);
    long := [mark] + tail;
    var p := ParseFields(s, ts);
    assert p.value == [f] + ParseFields(s1, ts[1..]).value;
    assert p.value[1..] == ParseFields(s1, ts[1..]).value && long[1..] == tail;
    forall i | 0 <= i < |ts| && long[i] ensures IsEmptyString(p.value[i], ts[i]) {
      if i > 0 { assert tail[i - 1]; }
    }
    forall i | 0 <= i < |ts| ensures Printable(p.value[i], ts[i]) {
      if i > 0 { assert Printable(p.value[1..][i - 1], ts[1..][i - 1]); }
    }
  }

  lemma ReadFieldIsSpelling(s: Bytes, t: FieldType) returns (long: bool)
    requires ParseField(s, t).Done?
    ensures var p := ParseField(s, t);
            && FieldFits(p.value, t) && Printable(p.value, t)
            && (long ==> IsEmptyString(p.value, t) && s == [1, 0, 0] + p.rest)
            && (!long ==> s == PutField(p.value, t, p.rest))
  {
    PutParseField(s, t);
    long := t.StringField? && UnitForm(s);
    if long { UnitFormBytes(s); UnitFormParses(ParseField(s, t).rest); }
  }

  /** The inputs that decode to a value are exactly its spellings. */
  lemma SpellingsAreExact(s: Bytes, fs: seq<Field>, ts: seq<FieldType>)
    requires FieldsFit(fs, ts) && AllPrintable(fs, ts)
    ensures DecodeFields(s, ts) == Some(fs) <==>
              exists long :: Spelling(fs, ts, long) && s == PutSpelled(fs, ts, long, [])
  {
    if DecodeFields(s, ts) == Some(fs) {
      var long := ReadIsSpelling(s, ts);
      assert Spelling(fs, ts, long) && s == PutSpelled(fs, ts, long, []);
    }
    if long :| Spelling(fs, ts, long) && s == PutSpelled(fs, ts, long, []) {
      SpellingReads(fs, ts, long, []);
    }
  }

  lemma {:induction false} Unmarked(long: seq<bool>)
    ensures Marked(long) == 0 <==> forall i | 0 <= i < |long| :: !long[i]
    decreases long
  {
    if long != [] {
      Unmarked(long[1..]);
      assert long == [long[0]] + long[1..];
    }
  }

  /** A value has an input that does not come back byte for byte exactly when one of its strings
      is empty. */
  lemma SecondSpellingIsExact(fs: seq<Field>, ts: seq<FieldType>)
    requires FieldsFit(fs, ts) && AllPrintable(fs, ts) && AllTyped(fs, ts)
    ensures (exists s :: DecodeFields(s, ts) == Some(fs) && EncodeFields(fs, ts) != Some(s)) <==>
            exists i | 0 <= i < |ts| :: IsEmptyString(fs[i], ts[i])
  {
    hide FieldFits, Printable, Typed, IsEmptyString, ParseFields, PutFields;
    if s :| DecodeFields(s, ts) == Some(fs) && EncodeFields(fs, ts) != Some(s) {
      EncodeDecodeFields(s, ts);
      var long := ReadIsSpelling(s, ts);
      SpellingReads(fs, ts, long, []);
      Unmarked(long);
      var i :| 0 <= i < |long| && long[i];
      assert IsEmptyString(fs[i], ts[i]);
    }
    if i :| 0 <= i < |ts| && IsEmptyString(fs[i], ts[i]) {
      var long := seq(|ts|, j => j == i);
      assert long[i];
      SpellingReads(fs, ts, long, []);
      Unmarked(long);
      var s := PutSpelled(fs, ts, long, []);
      assert DecodeFields(s, ts) == Some(fs);
      EncodeDecodeFields(s, ts);
    }
  }

  // ---------- the streaming readers and writers ----------

  method ReadArray(reader: Reader, width: nat) returns (r: Option<seq<nat>>)
    requires reader.Valid()
    modifies reader
    ensures reader.Valid()
    ensures Agrees(r, reader.Rest(), ParseArray(old(reader.Rest()), width))
  {
    var length := reader.ReadLe(4);
    if length.None? || length.value > MAX_ARRAY_ELEMENTS { return None; }
    var needed := length.value * width;
    if needed > MAX_ARRAY_ALLOCATION_BYTES { return None; }
    var remaining := |reader.bytes| - reader.position;
    if needed > remaining { return None; }
    r := reader.ReadMany(width, length.value);
  }

  method ReadField(reader: Reader, t: FieldType) returns (r: Option<Field>)
    requires reader.Valid()
    modifies reader
    ensures reader.Valid()
    ensures Agrees(r, reader.Rest(), ParseField(old(reader.Rest()), t))
  {
    match t {
      case UInt(width) =>
        var v := reader.ReadLe(width);
        r := if v.None? then None else Some(Num(v.value));
      case StringField =>
        var v := ReadString(reader);
        r := if v.None? then None else Some(Str(v.value));
      case CodesField =>
        var v := ReadArray(reader, 2);
        r := if v.None? then None else Some(Codes(v.value));
    }
  }

  method DecodeExact(bytes: Bytes, ts: seq<FieldType>) returns (r: Option<seq<Field>>)
    ensures r == DecodeFields(bytes, ts)
  {
    var reader := new Reader(bytes);
    var fields: seq<Field> := [];
    assert ts[0..] == ts;
    match ParseFields(bytes, ts) {
      case Fail =>
      case Done(all, _) => assert [] + all == all;
    }
    for i := 0 to |ts|
      invariant fresh(reader) && reader.Valid()
      invariant match ParseFields(reader.Rest(), ts[i..])
                case Fail => DecodeFields(bytes, ts) == None
                case Done(more, rest) => ParseFields(bytes, ts) == Done(fields + more, rest)
    {
      ghost var before := reader.Rest();
      assert ts[i..][1..] == ts[i + 1..];
      var f := ReadField(reader, ts[i]);
      if f.None? { return None; }
      match ParseFields(reader.Rest(), ts[i + 1..]) {
        case Fail =>
        case Done(more, rest) => assert fields + ([f.value] + more) == (fields + [f.value]) + more;
      }
      fields := fields + [f.value];
    }
    assert fields + [] == fields;
    var end := reader.IsAtEnd();
    r := if end then Some(fields) else None;
  }

  class Writer {
    var bytes: Bytes

    constructor ()
      ensures bytes == [] && fresh(this)
    {
      bytes := [];
    }

    method WriteLe(v: nat, n: nat)
      modifies this
      ensures bytes == old(bytes) + LeBytes(v, n)
    {
      bytes := bytes + LeBytes(v, n);
    }

    method WriteMany(vs: seq<nat>, width: nat)
      modifies this
      ensures bytes == old(bytes) + PutMany(vs, width, [])
    {
      assert vs[0..] == vs;
      for i := 0 to |vs|
        invariant bytes + PutMany(vs[i..], width, []) == old(bytes) + PutMany(vs, width, [])
      {
        assert vs[i..][1..] == vs[i + 1..];
        ghost var before, tail := bytes, PutMany(vs[i + 1..], width, []);
        WriteLe(vs[i], width);
        assert before + (LeBytes(vs[i], width) + tail) == bytes + tail;
      }
    }

    /** Fails only on a string longer than 254 units. */
    method WriteString(t: Text) returns (ok: bool)
      modifies this
      ensures ok <==> StringFits(t)
      ensures ok ==> bytes == old(bytes) + PutString(t, [])
    {
      var utf16 := EncodeUtf16(t);
      if utf16 == [] {
        assert LeBytes(0, 1) == [0];
        WriteLe(0, 1);
        return true;
      }
      if |utf16| + 1 > 0xFF { return false; }
      WriteLe(|utf16| + 1, 1);
      WriteMany(utf16, 2);
      WriteLe(0, 2);
      PutManyAppends(utf16, 2, PutLe(0, 2, []));
      return true;
    }

    method WriteArray(vs: seq<nat>, width: nat) returns (ok: bool)
      modifies this
      ensures ok <==> |vs| < 0x1_0000_0000
      ensures ok ==> bytes == old(bytes) + PutArray(vs, width, [])
    {
      if |vs| >= 0x1_0000_0000 { return false; }
      ghost var before, head, tail := bytes, LeBytes(|vs|, 4), PutMany(vs, width, []);
      WriteLe(|vs|, 4);
      WriteMany(vs, width);
      assert (before + head) + tail == before + (head + tail);
      return true;
    }

    method WriteField(f: Field, t: FieldType) returns (ok: bool)
      requires Typed(f, t)
      modifies this
      ensures ok <==> Printable(f, t)
      ensures ok ==> bytes == old(bytes) + PutField(f, t, [])
    {
      match t {
        case UInt(width) => WriteLe(f.v, width); ok := true;
        case StringField => ok := WriteString(f.t);
        case CodesField => ok := WriteArray(f.vs, 2);
      }
    }

    method WriteZeroPadding(length: nat)
      modifies this
      ensures bytes == old(bytes) + Zeros(length)
    {
      var remaining: nat := length;
      while remaining != 0
        invariant remaining <= length
        invariant bytes == old(bytes) + Zeros(length - remaining)
      {
        var count := if remaining < PADDING_IO_CHUNK_BYTES then remaining else PADDING_IO_CHUNK_BYTES;
        bytes := bytes + Zeros(count);
        remaining := remaining - count;
      }
    }
  }

  /** What is still to be written after `written`. */
  lemma PutFieldsStep(written: Bytes, fs: seq<Field>, ts: seq<FieldType>)
    requires AllPrintable(fs, ts) && ts != []
    ensures AllPrintable(fs[1..], ts[1..])
    ensures written + PutFields(fs, ts, [])
         == (written + PutField(fs[0], ts[0], [])) + PutFields(fs[1..], ts[1..], [])
  {
    var tail := PutFields(fs[1..], ts[1..], []);
    PutFieldAppends(fs[0], ts[0], tail);
    assert written + (PutField(fs[0], ts[0], []) + tail) == (written + PutField(fs[0], ts[0], [])) + tail;
  }

  method EncodeAll(fs: seq<Field>, ts: seq<FieldType>) returns (r: Option<Bytes>)
    requires AllTyped(fs, ts)
    ensures r == EncodeFields(fs, ts)
  {
    var writer := new Writer();
    assert fs[0..] == fs && ts[0..] == ts;
    ghost var printable := AllPrintable(fs, ts);
    ghost var all := if printable then PutFields(fs, ts, []) else [];
    for i := 0 to |ts|
      invariant fresh(writer)
      invariant forall j | 0 <= j < i :: Printable(fs[j], ts[j])
      invariant printable ==>
                  AllPrintable(fs[i..], ts[i..]) && writer.bytes + PutFields(fs[i..], ts[i..], []) == all
    {
      if printable {
        PutFieldsStep(writer.bytes, fs[i..], ts[i..]);
        assert fs[i..][1..] == fs[i + 1..] && ts[i..][1..] == ts[i + 1..];
      }
      var ok := writer.WriteField(fs[i], ts[i]);
      if !ok { return None; }
    }
    assert AllPrintable(fs, ts);
    assert fs[|ts|..] == [] && ts[|ts|..] == [];
    assert writer.bytes + [] == writer.bytes;
    r := Some(writer.bytes);
  }

  function Zeros(n: nat): (b: Bytes)
    ensures |b| == n && forall i | 0 <= i < n :: b[i] == 0
  {
    seq(n, _ => 0)
  }

  /** Skips exactly `length` bytes of any content, or fails when fewer remain. */
  method ConsumePadding(reader: Reader, length: nat) returns (ok: bool)
    requires reader.Valid()
    modifies reader
    ensures reader.Valid()
    ensures ok <==> length <= old(|reader.Rest()|)
    ensures ok ==> reader.Rest() == old(reader.Rest())[length..]
  {
    var remaining: nat := length;
    while remaining != 0
      invariant reader.Valid()
      invariant remaining <= length
      invariant length - remaining <= old(|reader.Rest()|)
      invariant reader.Rest() == old(reader.Rest())[length - remaining..]
    {
      var count := if remaining < PADDING_IO_CHUNK_BYTES then remaining else PADDING_IO_CHUNK_BYTES;
      var chunk := reader.ReadLe(count);
      if chunk.None? { return false; }
      remaining := remaining - count;
    }
    return true;
  }
}
