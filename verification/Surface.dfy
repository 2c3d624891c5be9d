/** The PTP codes a firmware image lists: terminated runs of in-range 16-bit words. */
module Surface {
  import opened Wire

  datatype Category = Operations | Events | Properties {
    function MinimumLength(): nat {
      match this
      case Operations => 8
      case Events => 4
      case Properties => 8
    }

    predicate IsStandard(code: U16) {
      match this
      case Operations => 0x1001 <= code <= 0x101F
      case Events => 0x4001 <= code <= 0x400F
      case Properties => 0x5001 <= code <= 0x50FF
    }

    predicate IsVendor(code: U16) {
      match this
      case Operations => 0x9001 <= code <= 0x9FFF
      case Events => 0xC001 <= code <= 0xC0FF
      case Properties => 0xD001 <= code <= 0xD3FF
    }

    predicate Accepts(code: U16) {
      IsStandard(code) || IsVendor(code)
    }
  }

  /** The same by the two bytes of a code: operations 10xx up to 101F and 9xxx, events 40xx up to
      400F and C0xx, properties 50xx and D0xx to D3xx, never the first code of a range. */
  lemma CodesByByte(code: U16)
    ensures var (high, low) := (code / 256, code % 256);
            && (Operations.IsStandard(code) <==> high == 0x10 && 1 <= low <= 31)
            && (Operations.IsVendor(code) <==> high / 16 == 9 && code != 0x9000)
            && (Events.IsStandard(code) <==> high == 0x40 && 1 <= low <= 15)
            && (Events.IsVendor(code) <==> high == 0xC0 && low != 0)
            && (Properties.IsStandard(code) <==> high == 0x50 && low != 0)
            && (Properties.IsVendor(code) <==> 0xD0 <= high <= 0xD3 && code != 0xD000)
  {}

  // ---------- what a list is ----------

  predicate AllAccepted(words: seq<U16>, c: Category, i: nat, j: nat)
    requires i <= j <= |words|
  {
    forall k | i <= k < j :: c.Accepts(words[k])
  }

  /** A run that cannot be extended on either side. */
  predicate MaximalRun(words: seq<U16>, c: Category, i: nat, j: nat) {
    && i <= j <= |words| && AllAccepted(words, c, i, j)
    && (i > 0 ==> !c.Accepts(words[i - 1])) && (j < |words| ==> !c.Accepts(words[j]))
  }

  predicate NoRepeats(codes: seq<U16>) {
    forall i, j | 0 <= i < j < |codes| :: codes[i] != codes[j]
  }

  predicate Terminated(words: seq<U16>, j: nat) {
    j < |words| && (words[j] == 0x0000 || words[j] == 0xFFFF)
  }

  /** A maximal run that is long enough, terminated, free of repeats, and holds a standard code. */
  predicate IsList(words: seq<U16>, c: Category, i: nat, j: nat) {
    && MaximalRun(words, c, i, j) && j - i >= c.MinimumLength() && Terminated(words, j)
    && (exists k | i <= k < j :: c.IsStandard(words[k]))
    && NoRepeats(words[i..j])
  }

  /** A list on its own: at least eight different codes of the category, four for events, at
      least one of them standard, between a word of another kind and a word 0000 or FFFF. */
  lemma ListIsExact(words: seq<U16>, c: Category, i: nat, j: nat)
    ensures IsList(words, c, i, j) <==>
              && i + (if c.Events? then 4 else 8) <= j < |words| && words[j] in {0x0000, 0xFFFF}
              && (i > 0 ==> !c.IsStandard(words[i - 1]) && !c.IsVendor(words[i - 1]))
              && (forall k | i <= k < j :: c.IsStandard(words[k]) || c.IsVendor(words[k]))
              && (exists k | i <= k < j :: c.IsStandard(words[k]))
              && forall k, l | i <= k < l < j :: words[k] != words[l]
  {
    if i <= j <= |words| {
      assert NoRepeats(words[i..j]) <==> forall k, l | i <= k < l < j :: words[k] != words[l] by {
        if NoRepeats(words[i..j]) {
          forall k, l | i <= k < l < j ensures words[k] != words[l] { assert words[i..j][k - i] != words[i..j][l - i]; }
        }
      }
    }
    if j < |words| && words[j] in {0x0000, 0xFFFF} { CodesByByte(words[j]); }
  }

  /** The code stands in some list that starts before `limit`. */
  ghost predicate Listed(words: seq<U16>, c: Category, code: U16, limit: nat) {
    exists i: nat, j: nat :: i < limit && IsList(words, c, i, j) && code in words[i..j]
  }

  /** Two maximal runs that share a word are the same run. */
  lemma MaximalRunsAreDisjoint(words: seq<U16>, c: Category, i: nat, j: nat, i': nat, j': nat, k: nat)
    requires MaximalRun(words, c, i, j) && MaximalRun(words, c, i', j')
    requires i <= k < j && i' <= k < j'
    ensures i == i' && j == j' {}

  // ---------- the scan ----------

  /** `unique`: collecting into a set loses nothing exactly when no code repeats. */
  method Unique(codes: seq<U16>) returns (r: bool)
    ensures r <==> NoRepeats(codes)
  {
    SetSize(codes);
    r := |SetOf(codes)| == |codes|;
  }

  function SetOf(codes: seq<U16>): set<U16> {
    set c | c in codes
  }

  lemma {:induction false} SetSize(codes: seq<U16>)
    ensures |SetOf(codes)| <= |codes|
    ensures |SetOf(codes)| == |codes| <==> NoRepeats(codes)
    decreases |codes|
  {
    if codes != [] {
      var head, rest := codes[0], codes[1..];
      SetSize(rest);
      NoRepeatsHead(codes);
      var s := SetOf(rest);
      assert codes == [head] + rest;
      assert SetOf(codes) == s + {head};
      if head in rest {
        assert head in s;
        assert s + {head} == s;
      } else {
        assert head !in s;
        GrowByOne(s, head);
      }
    }
  }

  lemma GrowByOne(s: set<U16>, x: U16)
    requires x !in s
    ensures |s + {x}| == |s| + 1
  {}

  lemma NoRepeatsHead(codes: seq<U16>)
    requires codes != []
    ensures NoRepeats(codes) <==> codes[0] !in codes[1..] && NoRepeats(codes[1..])
  {}

  /** The codes of one category a scan finds, as the index-jumping loop computes them. */
  method ScanCategory(words: seq<U16>, c: Category, found: set<U16>) returns (codes: set<U16>)
    ensures forall code: U16 :: code in codes <==> code in found || Listed(words, c, code, |words|)
  {
    codes := found;
    var start := 0;
    while start < |words|
      invariant start > 0 && start <= |words| ==> !c.Accepts(words[start - 1])
      invariant forall code: U16 :: code in codes <==> code in found || Listed(words, c, code, start)
      decreases |words| - start
    {
      var end := start;
      while end < |words| && c.Accepts(words[end])
        invariant start <= end <= |words|
        invariant AllAccepted(words, c, start, end)
      {
        end := end + 1;
      }
      var run := words[start..end];
      var isLong := |run| >= c.MinimumLength();
      var terminated := end < |words| && (words[end] == 0x0000 || words[end] == 0xFFFF);
      var hasStandard := exists code | code in run :: c.IsStandard(code);
      var unique := Unique(run);
      var next := if end == start then start + 1 else end + 1;
      StandardInRun(words, c, start, end);
      assert isLong && terminated && hasStandard && unique <==> IsList(words, c, start, end);
      forall code: U16
        ensures Listed(words, c, code, next) <==>
                  Listed(words, c, code, start) || (IsList(words, c, start, end) && code in run)
      {
        ListsUpTo(words, c, code, start, end, next);
      }
      if isLong && terminated && hasStandard && unique {
        codes := codes + set code | code in run;
      }
      start := next;
    }
    forall code: U16 ensures Listed(words, c, code, start) <==> Listed(words, c, code, |words|) {
      NoListPastEnd(words, c, code, start);
    }
  }

  lemma StandardInRun(words: seq<U16>, c: Category, i: nat, j: nat)
    requires i <= j <= |words|
    ensures (exists code | code in words[i..j] :: c.IsStandard(code)) <==> exists k | i <= k < j :: c.IsStandard(words[k])
  {}

  /** Only the run at `start` can be a list that starts between `start` and `next`. */
  lemma ListsUpTo(words: seq<U16>, c: Category, code: U16, start: nat, end: nat, next: nat)
    requires MaximalRun(words, c, start, end) && start < |words|
    requires next == if end == start then start + 1 else end + 1
    ensures Listed(words, c, code, next) <==>
              Listed(words, c, code, start) || (IsList(words, c, start, end) && code in words[start..end])
  {}

  lemma NoListPastEnd(words: seq<U16>, c: Category, code: U16, limit: nat)
    requires limit >= |words|
    ensures Listed(words, c, code, limit) <==> Listed(words, c, code, |words|)
  {}

  // ---------- whole buffers ----------

  function Word(low: Byte, high: Byte): U16 {
    var l: int, h: int := low, high;
    l + 256 * h
  }

  /** The words of a buffer; an odd byte at the end is dropped. */
  function WordsOf(bytes: Bytes): (words: seq<U16>)
    ensures |words| == |bytes| / 2
    ensures forall i | 0 <= i < |words| :: words[i] == Word(bytes[2 * i], bytes[2 * i + 1])
    decreases |bytes|
  {
    if |bytes| < 2 then [] else [Word(bytes[0], bytes[1])] + WordsOf(bytes[2..])
  }

  /** Every code the buffer lists, at either parity. */
  ghost predicate ListedIn(buffer: Bytes, c: Category, code: U16) {
    || Listed(WordsOf(buffer), c, code, |WordsOf(buffer)|)
    || (buffer != [] && Listed(WordsOf(buffer[1..]), c, code, |WordsOf(buffer[1..])|))
  }

  class PtpSurface {
    var codes: map<Category, set<U16>>

    function Codes(c: Category): set<U16>
      reads this
    {
      if c in codes then codes[c] else {}
    }

    constructor ()
      ensures fresh(this) && codes == map[]
    {
      codes := map[];
    }

    method ScanWords(words: seq<U16>)
      modifies this
      ensures forall c: Category, code: U16 :: code in Codes(c) <==> code in old(Codes(c)) || Listed(words, c, code, |words|)
    {
      var operations := ScanCategory(words, Operations, Codes(Operations));
      var events := ScanCategory(words, Events, Codes(Events));
      var properties := ScanCategory(words, Properties, Codes(Properties));
      codes := map[Operations := operations, Events := events, Properties := properties];
      assert Codes(Operations) == operations && Codes(Events) == events && Codes(Properties) == properties;
      forall c: Category, code: U16
        ensures code in Codes(c) <==> code in old(Codes(c)) || Listed(words, c, code, |words|)
      {
        match c
        case Operations =>
        case Events =>
        case Properties =>
      }
    }

    /** Both parities are scanned and added to what earlier buffers gave. */
    method Scan(buffer: Bytes)
      modifies this
      ensures forall c: Category, code: U16 :: code in Codes(c) <==> code in old(Codes(c)) || ListedIn(buffer, c, code)
    {
      ScanWords(WordsOf(buffer));
      if buffer != [] { ScanWords(WordsOf(buffer[1..])); }
    }
  }

  // ---------- differences ----------

  datatype Change = Change(added: set<U16>, removed: set<U16>)

  function Between(before: set<U16>, after: set<U16>): Change {
    Change(after - before, before - after)
  }

  /** A change turns the older set into the newer one, and back when read the other way. */
  lemma ChangesApply(before: set<U16>, after: set<U16>)
    ensures var d := Between(before, after);
            && (before - d.removed) + d.added == after && (after - d.added) + d.removed == before
            && d.added !! d.removed
            && (d == Change({}, {}) <==> before == after)
  {}
}
