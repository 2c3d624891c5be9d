/** Order-insensitive comparison of vectors, as the code generator does it. */
module Multisets {

  /** Index of the first occurrence, or |s|. */
  function Position<T(==)>(s: seq<T>, x: T): (i: nat)
    ensures i <= |s|
    ensures i < |s| ==> s[i] == x
    ensures x !in s[..i]
    ensures i == |s| <==> x !in s
  {
    if s == [] then 0 else if s[0] == x then 0 else
      var j := Position(s[1..], x);
      assert s[..j + 1] == [s[0]] + s[1..][..j];
      j + 1
  }

  /** Removes index `i` by moving the last element into its place. */
  function SwapRemove<T>(s: seq<T>, i: nat): (r: seq<T>)
    requires i < |s|
    ensures |r| == |s| - 1
  {
    s[i := s[|s| - 1]][..|s| - 1]
  }

  lemma SwapRemoveMultiset<T>(s: seq<T>, i: nat)
    requires i < |s|
    ensures multiset(SwapRemove(s, i)) == multiset(s) - multiset{s[i]}
  {
    var last := |s| - 1;
    if i == last {
      assert s == s[..last] + [s[last]];
    } else {
      assert s == s[..i] + [s[i]] + s[i + 1..last] + [s[last]];
      assert SwapRemove(s, i) == s[..i] + [s[last]] + s[i + 1..last];
    }
  }

  lemma HeadTail<T>(s: seq<T>)
    requires s != []
    ensures multiset(s) == multiset{s[0]} + multiset(s[1..])
  {
    assert s == [s[0]] + s[1..];
  }

  /** Greedy removal decides multiset inclusion. */
  method Subset<T(==)>(needle: seq<T>, haystack: seq<T>) returns (included: bool)
    ensures included <==> multiset(needle) <= multiset(haystack)
  {
    if |needle| > |haystack| {
      if multiset(needle) <= multiset(haystack) { SubsetIsShorter(needle, haystack); }
      return false;
    }
    var remaining := haystack;
    for i := 0 to |needle|
      invariant multiset(needle) <= multiset(haystack) <==> multiset(needle[i..]) <= multiset(remaining)
    {
      HeadTail(needle[i..]);
      var pos := Position(remaining, needle[i]);
      if pos == |remaining| {
        assert multiset(remaining)[needle[i]] == 0;
        assert multiset(needle[i..])[needle[i]] > 0;
        return false;
      }
      SwapRemoveMultiset(remaining, pos);
      assert needle[i..][1..] == needle[i + 1..];
      remaining := SwapRemove(remaining, pos);
    }
    return true;
  }

  lemma SubsetIsShorter<T>(a: seq<T>, b: seq<T>)
    requires multiset(a) <= multiset(b)
    ensures |a| <= |b|
  {
    assert multiset(b) == multiset(a) + (multiset(b) - multiset(a));
    assert |multiset(b)| == |multiset(a)| + |multiset(b) - multiset(a)|;
  }

  lemma Snoc<T>(s: seq<T>, i: nat)
    requires i < |s|
    ensures multiset(s[..i + 1]) == multiset(s[..i]) + multiset{s[i]}
    ensures multiset(s[..i + 1]) <= multiset(s)
  {
    assert s[..i + 1] == s[..i] + [s[i]];
    assert s == s[..i + 1] + s[i + 1..];
  }

  function CountOf<T(==)>(counts: map<T, nat>, x: T): nat {
    if x in counts then counts[x] else 0
  }

  ghost predicate Counts<T(!new)>(counts: map<T, nat>, ms: multiset<T>) {
    forall x :: CountOf(counts, x) == ms[x]
  }

  lemma CountUp<T(!new)>(counts: map<T, nat>, ms: multiset<T>, x: T)
    requires Counts(counts, ms)
    ensures Counts(counts[x := CountOf(counts, x) + 1], ms + multiset{x})
  {}

  lemma CountDown<T(!new)>(counts: map<T, nat>, ms: multiset<T>, x: T)
    requires Counts(counts, ms) && CountOf(counts, x) > 0
    ensures Counts(counts[x := CountOf(counts, x) - 1], ms - multiset{x})
  {}

  method Tally<T(==, !new)>(a: seq<T>) returns (counts: map<T, nat>)
    ensures Counts(counts, multiset(a))
  {
    counts := map[];
    for i := 0 to |a|
      invariant Counts(counts, multiset(a[..i]))
    {
      Snoc(a, i);
      CountUp(counts, multiset(a[..i]), a[i]);
      counts := counts[a[i] := CountOf(counts, a[i]) + 1];
    }
    assert a[..|a|] == a;
  }

  /** Counting decides multiset equality. */
  method Equal<T(==, !new)>(a: seq<T>, b: seq<T>) returns (equal: bool)
    ensures equal <==> multiset(a) == multiset(b)
  {
    if |a| != |b| {
      assert |multiset(a)| == |a| && |multiset(b)| == |b|;
      return false;
    }
    var counts: map<T, nat> := Tally(a);
    ghost var all := multiset(a);
    for i := 0 to |b|
      invariant multiset(b[..i]) <= all
      invariant Counts(counts, all - multiset(b[..i]))
    {
      Snoc(b, i);
      ghost var left := all - multiset(b[..i]);
      if CountOf(counts, b[i]) == 0 {
        assert left[b[i]] == 0;
        assert multiset(b)[b[i]] > all[b[i]];
        return false;
      }
      CountDown(counts, left, b[i]);
      assert left - multiset{b[i]} == all - multiset(b[..i + 1]);
      counts := counts[b[i] := CountOf(counts, b[i]) - 1];
    }
    assert b[..|b|] == b;
    SameSizeInclusion(a, b);
    return true;
  }

  lemma SameSizeInclusion<T>(a: seq<T>, b: seq<T>)
    requires |a| == |b| && multiset(b) <= multiset(a)
    ensures multiset(a) == multiset(b)
  {
    var rest := multiset(a) - multiset(b);
    assert multiset(a) == multiset(b) + rest;
    assert |multiset(a)| == |multiset(b)| + |rest|;
    assert |multiset(a)| == |a| && |multiset(b)| == |b|;
    assert rest == multiset{};
  }
}
