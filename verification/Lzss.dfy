/** LZSS decoding of firmware sections, against a token grammar and a byte-by-byte expansion. */
module Lzss {
  import opened Wrappers
  import opened Wire

  // ---------- tokens ----------

  /** A run of literals, or a copy of `length` bytes from `distance` bytes back. */
  datatype Token = Literals(bytes: Bytes) | Match(length: nat, distance: nat)

  predicate WellFormedToken(t: Token) {
    match t
    case Literals(bytes) => |bytes| < 0x80
    case Match(length, distance) => length < 0x10 && distance < 0x800
  }

  predicate WellFormedTokens(ts: seq<Token>) {
    forall i | 0 <= i < |ts| :: WellFormedToken(ts[i])
  }

  /** The two bytes of a match token: the low nibble of the second is the length, the other
      eleven bits are the distance. */
  function MatchDistance(control: Byte, low: Byte): nat
    requires control >= 0x80
  {
    (control - 0x80) * 16 + low / 16
  }

  function MatchLength(low: Byte): nat { low % 16 }

  datatype TokenParse = Bad | Good(token: Token, rest: Bytes)

  function ParseToken(s: Bytes): (p: TokenParse)
    requires s != []
    ensures p.Good? ==> |p.rest| < |s| && WellFormedToken(p.token)
  {
    var control := s[0];
    if control < 0x80 then
      if |s| < 1 + control then Bad else Good(Literals(s[1..1 + control]), s[1 + control..])
    else if |s| < 2 then Bad
    else Good(Match(MatchLength(s[1]), MatchDistance(control, s[1])), s[2..])
  }

  function ParseTokens(s: Bytes): (r: Option<seq<Token>>)
    ensures r.Some? ==> WellFormedTokens(r.value)
    decreases |s|
  {
    if s == [] then Some([])
    else
      match ParseToken(s)
      case Bad => None
      case Good(t, rest) =>
        match ParseTokens(rest)
        case None => None
        case Some(ts) => Some([t] + ts)
  }

  function PrintToken(t: Token): Bytes
    requires WellFormedToken(t)
  {
    match t
    case Literals(bytes) => [|bytes|] + bytes
    case Match(length, distance) => [0x80 + distance / 16, (distance % 16) * 16 + length]
  }

  function PrintTokens(ts: seq<Token>): Bytes
    requires WellFormedTokens(ts)
  {
    if ts == [] then [] else PrintToken(ts[0]) + PrintTokens(ts[1..])
  }

  lemma ParsePrintToken(t: Token, rest: Bytes)
    requires WellFormedToken(t)
    ensures ParseToken(PrintToken(t) + rest) == Good(t, rest)
  {}

  lemma PrintParseToken(s: Bytes)
    requires s != [] && ParseToken(s).Good?
    ensures PrintToken(ParseToken(s).token) + ParseToken(s).rest == s
  {}

  /** Parsing and printing token streams are mutually inverse. */
  lemma {:induction false} ParsePrintTokens(ts: seq<Token>)
    requires WellFormedTokens(ts)
    ensures ParseTokens(PrintTokens(ts)) == Some(ts)
    decreases |ts|
  {
    if ts != [] {
      ParsePrintToken(ts[0], PrintTokens(ts[1..]));
      ParsePrintTokens(ts[1..]);
      assert ts == [ts[0]] + ts[1..];
    }
  }

  lemma {:induction false} PrintParseTokens(s: Bytes)
    requires ParseTokens(s).Some?
    ensures PrintTokens(ParseTokens(s).value) == s
    decreases |s|
  {
    if s != [] {
      PrintParseToken(s);
      var p := ParseToken(s);
      PrintParseTokens(p.rest);
      assert ParseTokens(s).value[1..] == ParseTokens(p.rest).value;
    }
  }

  // ---------- expansion ----------

  /** The byte `distance` back; zero before the start and for distance zero. */
  function LookBack(out: Bytes, distance: nat): Byte {
    if distance == 0 || |out| < distance then 0 else out[|out| - distance]
  }

  /** One byte at a time, so a copy may read bytes it wrote itself. */
  function Copy(out: Bytes, distance: nat, length: nat): (r: Bytes)
    ensures |r| == |out| + length
    decreases length
  {
    if length == 0 then out else Copy(out + [LookBack(out, distance)], distance, length - 1)
  }

  function ApplyToken(out: Bytes, t: Token): (r: Bytes)
    ensures |out| <= |r|
  {
    match t
    case Literals(bytes) => out + bytes
    case Match(length, distance) => Copy(out, distance, length)
  }

  function Expand(out: Bytes, ts: seq<Token>): (r: Bytes)
    ensures |out| <= |r|
    decreases |ts|
  {
    if ts == [] then out else Expand(ApplyToken(out, ts[0]), ts[1..])
  }

  /** What decoding `s` after `out` comes to, within a budget. */
  function Decoded(out: Bytes, s: Bytes, budget: nat): Option<Bytes> {
    match ParseTokens(s)
    case None => None
    case Some(ts) => if |Expand(out, ts)| <= budget then Some(Expand(out, ts)) else None
  }

  lemma DecodedStep(out: Bytes, s: Bytes, budget: nat)
    requires s != []
    ensures Decoded(out, s, budget) ==
            match ParseToken(s)
            case Bad => None
            case Good(t, rest) => Decoded(ApplyToken(out, t), rest, budget)
    ensures |out| > budget ==> Decoded(out, s, budget) == None
  {}

  lemma OverBudget(out: Bytes, s: Bytes, budget: nat)
    requires |out| > budget
    ensures Decoded(out, s, budget) == None
  {}

  /** The token at an index of the stream, in the stream's own coordinates. */
  lemma TokenAt(stream: Bytes, index: nat)
    requires index < |stream|
    ensures ParseToken(stream[index..]) ==
            if stream[index] < 0x80 then
              var end := index + 1 + stream[index];
              if end > |stream| then Bad else Good(Literals(stream[index + 1..end]), stream[end..])
            else if index + 1 >= |stream| then Bad
            else Good(Match(MatchLength(stream[index + 1]), MatchDistance(stream[index], stream[index + 1])), stream[index + 2..])
  {}

  /** The copy loop of one match token. */
  method CopyMatch(before: Bytes, distance: nat, length: nat) returns (out: Bytes)
    ensures out == Copy(before, distance, length)
  {
    out := before;
    if distance == 0 {
      ZeroCopy(out, length);
      out := out + seq(length, _ => 0);
    } else {
      for i := 0 to length
        invariant Copy(out, distance, length - i) == Copy(before, distance, length)
      {
        out := out + [if |out| < distance then 0 else out[|out| - distance]];
      }
    }
  }

  /** The decoder succeeds exactly when the stream parses into tokens that expand within the
      budget, and its output is the byte-by-byte expansion. */
  method Decompress(stream: Bytes, budget: nat) returns (r: Option<Bytes>)
    ensures r == Decoded([], stream, budget)
  {
    hide Decoded, ParseToken, MatchDistance, MatchLength;
    var out: Bytes := [];
    var index := 0;
    assert stream[0..] == stream;
    while index < |stream|
      invariant index <= |stream|
      invariant |out| <= budget
      invariant Decoded(out, stream[index..], budget) == Decoded([], stream, budget)
      decreases |stream| - index
    {
      DecodedStep(out, stream[index..], budget);
      TokenAt(stream, index);
      var control := stream[index];
      if control < 0x80 {
        var end := index + 1 + control;
        if end > |stream| { return None; }
        out := out + stream[index + 1..end];
        index := end;
      } else {
        if index + 1 >= |stream| { return None; }
        var low := stream[index + 1];
        out := CopyMatch(out, MatchDistance(control, low), MatchLength(low));
        index := index + 2;
      }
      if |out| > budget {
        OverBudget(out, stream[index..], budget);
        return None;
      }
    }
    DecodedEnd(out, budget);
    assert stream[index..] == [];
    r := Some(out);
  }

  lemma DecodedEnd(out: Bytes, budget: nat)
    requires |out| <= budget
    ensures Decoded(out, [], budget) == Some(out)
  {}

  /** Distance zero emits zeros. */
  lemma {:induction false} ZeroCopy(out: Bytes, length: nat)
    ensures Copy(out, 0, length) == out + seq(length, _ => 0)
    decreases length
  {
    if length == 0 {
      assert out + seq(0, _ => 0) == out;
    } else {
      ZeroCopy(out + [0], length - 1);
      assert seq(length, _ => 0) == [0] + seq(length - 1, _ => 0);
      assert out + [0] + seq(length - 1, _ => 0) == out + seq(length, _ => 0);
    }
  }

  /** No stream expands by more than fifteen halves. */
  lemma {:induction false} ExpansionBound(out: Bytes, s: Bytes)
    requires ParseTokens(s).Some?
    ensures 2 * |Expand(out, ParseTokens(s).value)| <= 2 * |out| + 15 * |s|
    decreases |s|
  {
    if s != [] {
      var p := ParseToken(s);
      var ts := ParseTokens(p.rest).value;
      assert ([p.token] + ts)[1..] == ts;
      ExpansionBound(ApplyToken(out, p.token), p.rest);
    }
  }

  // ---------- the two-kilobyte window ----------

  const WINDOW: nat := 0x7FF

  /** A decoder that keeps only a history of 2047 bytes, zero-filled at first. */
  datatype Windowed = Windowed(history: Bytes, out: Bytes)

  function Emit(w: Windowed, b: Byte): Windowed
    requires |w.history| == WINDOW
  {
    Windowed(w.history[1..] + [b], w.out + [b])
  }

  function WindowCopy(w: Windowed, distance: nat, length: nat): (r: Windowed)
    requires |w.history| == WINDOW && distance <= WINDOW
    ensures |r.history| == WINDOW
    decreases length
  {
    if length == 0 then w
    else WindowCopy(Emit(w, if distance == 0 then 0 else w.history[WINDOW - distance]), distance, length - 1)
  }

  function WindowLiterals(w: Windowed, bytes: Bytes): (r: Windowed)
    requires |w.history| == WINDOW
    ensures |r.history| == WINDOW
    decreases |bytes|
  {
    if bytes == [] then w else WindowLiterals(Emit(w, bytes[0]), bytes[1..])
  }

  function WindowExpand(w: Windowed, ts: seq<Token>): Windowed
    requires |w.history| == WINDOW && WellFormedTokens(ts)
    decreases |ts|
  {
    if ts == [] then w
    else
      match ts[0]
      case Literals(bytes) => WindowExpand(WindowLiterals(w, bytes), ts[1..])
      case Match(length, distance) => WindowExpand(WindowCopy(w, distance, length), ts[1..])
  }

  /** The last 2047 bytes of the output behind a zero-filled start. */
  function WindowOf(out: Bytes): (w: Windowed)
    ensures |w.history| == WINDOW
  {
    Windowed((seq(WINDOW, _ => 0) + out)[|out|..], out)
  }

  lemma EmitIsWindow(out: Bytes, b: Byte)
    ensures Emit(WindowOf(out), b) == WindowOf(out + [b])
  {}

  lemma LookBackInWindow(out: Bytes, distance: nat)
    requires 0 < distance <= WINDOW
    ensures WindowOf(out).history[WINDOW - distance] == LookBack(out, distance)
  {}

  lemma {:induction false} WindowCopies(out: Bytes, distance: nat, length: nat)
    requires distance <= WINDOW
    ensures WindowCopy(WindowOf(out), distance, length) == WindowOf(Copy(out, distance, length))
    decreases length
  {
    if length != 0 {
      if distance != 0 { LookBackInWindow(out, distance); }
      EmitIsWindow(out, LookBack(out, distance));
      WindowCopies(out + [LookBack(out, distance)], distance, length - 1);
    }
  }

  lemma {:induction false} WindowTakesLiterals(out: Bytes, bytes: Bytes)
    ensures WindowLiterals(WindowOf(out), bytes) == WindowOf(out + bytes)
    decreases |bytes|
  {
    if bytes == [] {
      assert out + bytes == out;
    } else {
      EmitIsWindow(out, bytes[0]);
      WindowTakesLiterals(out + [bytes[0]], bytes[1..]);
      assert out + [bytes[0]] + bytes[1..] == out + bytes;
    }
  }

  /** Looking back over the whole output is the same as keeping a 2047-byte window. */
  lemma {:induction false} WindowSuffices(out: Bytes, ts: seq<Token>)
    requires WellFormedTokens(ts)
    ensures WindowExpand(WindowOf(out), ts).out == Expand(out, ts)
    decreases |ts|
  {
    if ts != [] {
      assert WellFormedToken(ts[0]);
      match ts[0]
      case Literals(bytes) => WindowTakesLiterals(out, bytes); WindowSuffices(out + bytes, ts[1..]);
      case Match(length, distance) =>
        WindowCopies(out, distance, length);
        WindowSuffices(Copy(out, distance, length), ts[1..]);
    }
  }
}
