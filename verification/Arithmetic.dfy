/** Division facts the solver does not find on its own. */
module Arithmetic {

  lemma MultiplesAreSpaced(x: int, y: int, m: int)
    requires x < y && m > 0
    ensures x * m + m <= y * m
  {
    assert (y - x - 1) * m >= 0;
    assert (y - x - 1) * m == y * m - x * m - m;
  }

  lemma DivisionIsUnique(m: int, q: int, r: int, q': int, r': int)
    requires m > 0 && 0 <= r < m && 0 <= r' < m && q * m + r == q' * m + r'
    ensures q == q' && r == r'
  {
    if q > q' { MultiplesAreSpaced(q', q, m); }
    if q < q' { MultiplesAreSpaced(q, q', m); }
  }

  lemma RemainderIsUnique(a: int, m: int, q: int, r: int)
    requires m > 0 && 0 <= r < m && a == q * m + r
    ensures a % m == r && a / m == q
  {
    DivisionIsUnique(m, q, r, a / m, a % m);
  }

  lemma MultipleHasNoRemainder(q: int, m: int)
    requires m > 0
    ensures (q * m) % m == 0
  {
    RemainderIsUnique(q * m, m, q, 0);
  }

  predicate Divides(m: nat, a: int)
    requires m != 0
  {
    a % m == 0
  }
}
