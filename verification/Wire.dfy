/** Bytes, little-endian integers, and the two readers of a byte stream: a parse function for
    specifications and a cursor that moves over a buffer. */
module Wire {
  import opened Wrappers

  type Byte = x: int | 0 <= x < 0x100
  type U16 = x: int | 0 <= x < 0x1_0000
  type U32 = x: int | 0 <= x < 0x1_0000_0000
  type Bytes = seq<Byte>

  /** A value and the bytes after it, or a failed read. */
  datatype Parsed<+T> = Fail | Done(value: T, rest: Bytes) {
    predicate IsFailure() { Fail? }
    function PropagateFailure<U>(): Parsed<U> requires Fail? { Fail }
    function Extract(): (T, Bytes) requires Done? { (value, rest) }
  }

  // ---------- little-endian integers ----------

  function Pow256(n: nat): (p: nat)
    ensures p > 0
  {
    if n == 0 then 1 else 256 * Pow256(n - 1)
  }

  function LeBytes(v: nat, n: nat): (b: Bytes)
    ensures |b| == n
  {
    if n == 0 then [] else [v % 256] + LeBytes(v / 256, n - 1)
  }

  function LeValue(b: Bytes): (v: nat)
    ensures v < Pow256(|b|)
  {
    if b == [] then 0 else b[0] + 256 * LeValue(b[1..])
  }

  lemma {:induction false} LeRoundTrip(v: nat, n: nat)
    requires v < Pow256(n)
    ensures LeValue(LeBytes(v, n)) == v
  {
    if n != 0 {
      LeRoundTrip(v / 256, n - 1);
      assert LeBytes(v, n)[1..] == LeBytes(v / 256, n - 1);
    }
  }

  lemma {:induction false} LeUnique(b: Bytes)
    ensures LeBytes(LeValue(b), |b|) == b
  {
    if b != [] {
      LeUnique(b[1..]);
      var v := LeValue(b);
      assert v % 256 == b[0] && v / 256 == LeValue(b[1..]);
    }
  }

  /** The least significant byte comes first. */
  lemma LittleEndian(b: Bytes)
    ensures |b| == 1 ==> LeValue(b) == b[0]
    ensures |b| == 2 ==> LeValue(b) == b[0] as int + 0x100 * b[1] as int
    ensures |b| == 4 ==>
              LeValue(b) == b[0] as int + 0x100 * b[1] as int + 0x1_0000 * b[2] as int + 0x100_0000 * b[3] as int
  {
    if |b| == 2 {
      assert b[1..][1..] == [];
    } else if |b| == 4 {
      assert b[1..][1..] == b[2..] && b[2..][1..] == b[3..] && b[3..][1..] == [];
    }
  }

  lemma WidthBounds()
    ensures Pow256(0) == 1 && Pow256(1) == 0x100 && Pow256(2) == 0x1_0000
    ensures Pow256(4) == 0x1_0000_0000 && Pow256(8) == 0x1_0000_0000_0000_0000
    ensures Pow256(16) == 0x1_0000_0000_0000_0000_0000_0000_0000_0000
  {}

  // ---------- parsing and printing one integer ----------

  function ParseLe(s: Bytes, n: nat): Parsed<nat> {
    if |s| < n then Fail else Done(LeValue(s[..n]), s[n..])
  }

  function PutLe(v: nat, n: nat, rest: Bytes): Bytes {
    LeBytes(v, n) + rest
  }

  lemma ParsePutLe(v: nat, n: nat, rest: Bytes)
    requires v < Pow256(n)
    ensures ParseLe(PutLe(v, n, rest), n) == Done(v, rest)
  {
    LeRoundTrip(v, n);
    assert PutLe(v, n, rest)[..n] == LeBytes(v, n);
    assert PutLe(v, n, rest)[n..] == rest;
  }

  lemma PutParseLe(s: Bytes, n: nat)
    requires ParseLe(s, n).Done?
    ensures var p := ParseLe(s, n);
            p.value < Pow256(n) && PutLe(p.value, n, p.rest) == s && |p.rest| == |s| - n
  {
    LeUnique(s[..n]);
    assert s == s[..n] + s[n..];
  }

  /** `n` integers of `width` bytes each. */
  function ParseMany(s: Bytes, width: nat, n: nat): Parsed<seq<nat>>
    decreases n
  {
    if n == 0 then Done([], s)
    else
      var (v, s1) :- ParseLe(s, width);
      var (vs, s2) :- ParseMany(s1, width, n - 1);
      Done([v] + vs, s2)
  }

  function PutMany(vs: seq<nat>, width: nat, rest: Bytes): Bytes {
    if vs == [] then rest else PutLe(vs[0], width, PutMany(vs[1..], width, rest))
  }

  predicate FitWidth(vs: seq<nat>, width: nat) {
    forall i | 0 <= i < |vs| :: vs[i] < Pow256(width)
  }

  lemma {:induction false} ParsePutMany(vs: seq<nat>, width: nat, rest: Bytes)
    requires FitWidth(vs, width)
    ensures ParseMany(PutMany(vs, width, rest), width, |vs|) == Done(vs, rest)
    ensures |PutMany(vs, width, rest)| == |vs| * width + |rest|
    decreases vs
  {
    if vs != [] {
      assert vs == [vs[0]] + vs[1..];
      ParsePutMany(vs[1..], width, rest);
      ParsePutLe(vs[0], width, PutMany(vs[1..], width, rest));
      assert |vs| * width == width + (|vs| - 1) * width;
    }
  }

  lemma {:induction false} PutParseMany(s: Bytes, width: nat, n: nat)
    requires ParseMany(s, width, n).Done?
    ensures var p := ParseMany(s, width, n);
            |p.value| == n && FitWidth(p.value, width) && PutMany(p.value, width, p.rest) == s
            && |s| == n * width + |p.rest|
    decreases n
  {
    if n != 0 {
      PutParseLe(s, width);
      PutParseMany(ParseLe(s, width).rest, width, n - 1);
      assert n * width == width + (n - 1) * width;
    }
  }

  /** Reading the last of `n + 1` integers after the first `n`. */
  lemma {:induction false} ParseManySnoc(s: Bytes, width: nat, n: nat)
    ensures ParseMany(s, width, n + 1) ==
            match ParseMany(s, width, n)
            case Fail => Fail
            case Done(vs, s1) =>
              match ParseLe(s1, width)
              case Fail => Fail
              case Done(v, s2) => Done(vs + [v], s2)
    decreases n
  {
    match ParseLe(s, width)
    case Fail =>
    case Done(v, s1) =>
      if n == 0 {
        assert ParseMany(s1, width, 0) == Done([], s1);
        assert [v] + [] == [] + [v];
      } else {
        ParseManySnoc(s1, width, n - 1);
        match ParseMany(s1, width, n - 1)
        case Fail =>
        case Done(vs, s2) =>
          match ParseLe(s2, width)
          case Fail =>
          case Done(w, s3) => assert [v] + (vs + [w]) == ([v] + vs) + [w];
      }
  }

  // ---------- a cursor over a buffer ----------

  /** What a reading method returned, against what the parse of the bytes ahead says. */
  ghost predicate Agrees<T>(r: Option<T>, rest: Bytes, spec: Parsed<T>) {
    match spec
    case Fail => r.None?
    case Done(v, s) => r == Some(v) && rest == s
  }

  class Reader {
    const bytes: Bytes
    var position: nat

    ghost predicate Valid()
      reads this
    {
      position <= |bytes|
    }

    ghost function Rest(): Bytes
      requires Valid()
      reads this
    {
      bytes[position..]
    }

    constructor (bytes: Bytes)
      ensures Valid() && fresh(this) && this.bytes == bytes && position == 0 && Rest() == bytes
    {
      this.bytes := bytes;
      position := 0;
    }

    method ReadLe(n: nat) returns (r: Option<nat>)
      requires Valid()
      modifies this
      ensures Valid()
      ensures Agrees(r, Rest(), ParseLe(old(Rest()), n))
    {
      if |bytes| - position < n {
        r := None;
      } else {
        assert Rest()[..n] == bytes[position..position + n];
        assert Rest()[n..] == bytes[position + n..];
        r := Some(LeValue(bytes[position..position + n]));
        position := position + n;
      }
    }

    /** The loop every array and string reader runs. */
    method ReadMany(width: nat, n: nat) returns (r: Option<seq<nat>>)
      requires Valid()
      modifies this
      ensures Valid()
      ensures Agrees(r, Rest(), ParseMany(old(Rest()), width, n))
    {
      var values: seq<nat> := [];
      ghost var start := Rest();
      for i := 0 to n
        invariant Valid()
        invariant ParseMany(start, width, i) == Done(values, Rest())
      {
        ParseManySnoc(start, width, i);
        var v := ReadLe(width);
        if v.None? {
          ManyFails(start, width, i + 1, n);
          return None;
        }
        values := values + [v.value];
      }
      r := Some(values);
    }

    method IsAtEnd() returns (end: bool)
      requires Valid()
      ensures end <==> Rest() == []
    {
      end := position == |bytes|;
    }
  }

  lemma {:induction false} ManyFails(s: Bytes, width: nat, i: nat, n: nat)
    requires i <= n && ParseMany(s, width, i).Fail?
    ensures ParseMany(s, width, n).Fail?
    decreases n - i
  {
    if i < n {
      ParseManySnoc(s, width, i);
      ManyFails(s, width, i + 1, n);
    }
  }
}
