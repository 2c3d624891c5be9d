/** Compilation of predicates to disjunctive normal form, and back. */
module Dnf {
  import opened Grammar

  datatype Leaf =
    | IsPresent(p: LeafPresent)
    | IsEqual(eq: LeafEquals)
    | NotEqual(eq: LeafEquals)
    | IsIn(oneOf: LeafIn)
    | NotIn(oneOf: LeafIn)
    | IsBetween(between: LeafBetween)
    | NotBetween(between: LeafBetween)
    | IsLess(lt: LeafLt)
    | NotLess(lt: LeafLt)
    | IsLessEqual(lte: LeafLte)
    | NotLessEqual(lte: LeafLte)
    | IsGreater(gt: LeafGt)
    | NotGreater(gt: LeafGt)
    | IsGreaterEqual(gte: LeafGte)
    | NotGreaterEqual(gte: LeafGte)
  {
    function Ref(): string {
      match this
      case IsPresent(l) => l.ref
      case IsEqual(l) => l.ref
      case NotEqual(l) => l.ref
      case IsIn(l) => l.ref
      case NotIn(l) => l.ref
      case IsBetween(l) => l.ref
      case NotBetween(l) => l.ref
      case IsLess(l) => l.ref
      case NotLess(l) => l.ref
      case IsLessEqual(l) => l.ref
      case NotLessEqual(l) => l.ref
      case IsGreater(l) => l.ref
      case NotGreater(l) => l.ref
      case IsGreaterEqual(l) => l.ref
      case NotGreaterEqual(l) => l.ref
    }

    function Scope(): Scope {
      match this
      case IsPresent(l) => l.scope
      case IsEqual(l) => l.scope
      case NotEqual(l) => l.scope
      case IsIn(l) => l.scope
      case NotIn(l) => l.scope
      case IsBetween(l) => l.scope
      case NotBetween(l) => l.scope
      case IsLess(l) => l.scope
      case NotLess(l) => l.scope
      case IsLessEqual(l) => l.scope
      case NotLessEqual(l) => l.scope
      case IsGreater(l) => l.scope
      case NotGreater(l) => l.scope
      case IsGreaterEqual(l) => l.scope
      case NotGreaterEqual(l) => l.scope
    }

    function Negated(): Leaf {
      match this
      case IsPresent(LeafPresent(ref, scope, present)) => IsPresent(LeafPresent(ref, scope, !present))
      case IsEqual(l) => NotEqual(l)
      case NotEqual(l) => IsEqual(l)
      case IsIn(l) => NotIn(l)
      case NotIn(l) => IsIn(l)
      case IsBetween(l) => NotBetween(l)
      case NotBetween(l) => IsBetween(l)
      case IsLess(l) => NotLess(l)
      case NotLess(l) => IsLess(l)
      case IsLessEqual(l) => NotLessEqual(l)
      case NotLessEqual(l) => IsLessEqual(l)
      case IsGreater(l) => NotGreater(l)
      case NotGreater(l) => IsGreater(l)
      case IsGreaterEqual(l) => NotGreaterEqual(l)
      case NotGreaterEqual(l) => IsGreaterEqual(l)
    }
  }

  type Conjunction = seq<Leaf>
  type Disjunction = seq<Conjunction>

  // ---------- meaning ----------

  predicate LeafHolds(l: Leaf, s: State, m: Meaning) {
    match l
    case IsPresent(p) => HasPresence(s, p)
    case IsEqual(q) => Passes(s, m, q.ref, q.scope, EqualTo(q.equals))
    case NotEqual(q) => !Passes(s, m, q.ref, q.scope, EqualTo(q.equals))
    case IsIn(q) => Passes(s, m, q.ref, q.scope, OneOf(q.values))
    case NotIn(q) => !Passes(s, m, q.ref, q.scope, OneOf(q.values))
    case IsBetween(q) => Passes(s, m, q.ref, q.scope, Within(q.min, q.max))
    case NotBetween(q) => !Passes(s, m, q.ref, q.scope, Within(q.min, q.max))
    case IsLess(q) => Passes(s, m, q.ref, q.scope, Below(q.lt))
    case NotLess(q) => !Passes(s, m, q.ref, q.scope, Below(q.lt))
    case IsLessEqual(q) => Passes(s, m, q.ref, q.scope, AtMost(q.lte))
    case NotLessEqual(q) => !Passes(s, m, q.ref, q.scope, AtMost(q.lte))
    case IsGreater(q) => Passes(s, m, q.ref, q.scope, Above(q.gt))
    case NotGreater(q) => !Passes(s, m, q.ref, q.scope, Above(q.gt))
    case IsGreaterEqual(q) => Passes(s, m, q.ref, q.scope, AtLeast(q.gte))
    case NotGreaterEqual(q) => !Passes(s, m, q.ref, q.scope, AtLeast(q.gte))
  }

  predicate ConjunctionHolds(c: Conjunction, s: State, m: Meaning) {
    forall l | l in c :: LeafHolds(l, s, m)
  }

  predicate DisjunctionHolds(d: Disjunction, s: State, m: Meaning) {
    exists c | c in d :: ConjunctionHolds(c, s, m)
  }

  function DisjunctionRefs(d: Disjunction): set<string> {
    set c, l | c in d && l in c :: l.Ref()
  }

  // ---------- termination measure ----------

  /** Nodes other than `Not`, with one extra unit per list element: negating an `All` or `Any`
      wraps every element in a `Not`, which builds a larger term of the same weight. */
  function Weight(p: Predicate): nat
    decreases p
  {
    match p
    case All(all) => 1 + Weights(all)
    case Any(any) => 1 + Weights(any)
    case Not(inner) => Weight(inner)
    case _ => 1
  }

  function Weights(ps: seq<Predicate>): nat
    decreases ps
  {
    if ps == [] then 0 else 1 + Weight(ps[0]) + Weights(ps[1..])
  }

  function LeadingNots(p: Predicate): nat {
    if p.Not? then 1 + LeadingNots(p.inner) else 0
  }

  function Negations(ps: seq<Predicate>): (ns: seq<Predicate>)
    ensures |ns| == |ps|
    ensures forall i | 0 <= i < |ps| :: ns[i] == Not(ps[i])
    ensures Weights(ns) == Weights(ps)
  {
    if ps == [] then [] else [Not(ps[0])] + Negations(ps[1..])
  }

  // ---------- compilation ----------

  predicate IsLeaf(p: Predicate) {
    !p.Constant? && !p.All? && !p.Any? && !p.Not?
  }

  function ToLeaf(p: Predicate): Leaf
    requires IsLeaf(p)
  {
    match p
    case Present(l) => IsPresent(l)
    case Equals(l) => IsEqual(l)
    case In(l) => IsIn(l)
    case Between(l) => IsBetween(l)
    case LessThan(l) => IsLess(l)
    case LessThanOrEqual(l) => IsLessEqual(l)
    case GreaterThan(l) => IsGreater(l)
    case GreaterThanOrEqual(l) => IsGreaterEqual(l)
  }

  function IntoDisjuncts(p: Predicate): Disjunction
    decreases Weight(p), LeadingNots(p), 0
  {
    match p
    case All(all) => FoldClauses([[]], all)
    case Any(any) => FlatMapDisjuncts(any)
    case Not(inner) => IntoNegation(inner)
    case Constant(b) => if b then [[]] else []
    case leaf => [[ToLeaf(leaf)]]
  }

  function IntoNegation(p: Predicate): Disjunction
    decreases Weight(p), LeadingNots(p), 1
  {
    match p
    case All(all) => IntoDisjuncts(Any(Negations(all)))
    case Any(any) => IntoDisjuncts(All(Negations(any)))
    case Not(inner) => IntoDisjuncts(inner)
    case Constant(b) => if b then [] else [[]]
    case leaf => [[ToLeaf(leaf).Negated()]]
  }

  /** The fold over the clauses of an `All`, with both early exits. */
  function FoldClauses(acc: Disjunction, clauses: seq<Predicate>): Disjunction
    decreases Weights(clauses), 0, 0
  {
    if clauses == [] then acc
    else if acc == [] then FoldClauses(acc, clauses[1..])
    else
      var parts := IntoDisjuncts(clauses[0]);
      if parts == [] then FoldClauses([], clauses[1..])
      else FoldClauses(Distribute(acc, parts), clauses[1..])
  }

  function FlatMapDisjuncts(ps: seq<Predicate>): Disjunction
    decreases Weights(ps), 0, 0
  {
    if ps == [] then [] else IntoDisjuncts(ps[0]) + FlatMapDisjuncts(ps[1..])
  }

  function Extend(prefix: Conjunction, parts: Disjunction): (d: Disjunction)
  {
    seq(|parts|, i requires 0 <= i < |parts| => prefix + parts[i])
  }

  function Distribute(acc: Disjunction, parts: Disjunction): Disjunction {
    if acc == [] then [] else Extend(acc[0], parts) + Distribute(acc[1..], parts)
  }

  function FromPredicate(p: Predicate): Disjunction {
    IntoDisjuncts(p)
  }

  // ---------- and back ----------

  function FromLeaf(l: Leaf): Predicate {
    match l
    case IsPresent(p) => Present(p)
    case IsEqual(p) => Equals(p)
    case NotEqual(p) => Not(Equals(p))
    case IsIn(p) => In(p)
    case NotIn(p) => Not(In(p))
    case IsBetween(p) => Between(p)
    case NotBetween(p) => Not(Between(p))
    case IsLess(p) => LessThan(p)
    case NotLess(p) => Not(LessThan(p))
    case IsLessEqual(p) => LessThanOrEqual(p)
    case NotLessEqual(p) => Not(LessThanOrEqual(p))
    case IsGreater(p) => GreaterThan(p)
    case NotGreater(p) => Not(GreaterThan(p))
    case IsGreaterEqual(p) => GreaterThanOrEqual(p)
    case NotGreaterEqual(p) => Not(GreaterThanOrEqual(p))
  }

  predicate IsTautology(d: Disjunction) {
    exists c | c in d :: c == []
  }

  predicate IsContradiction(d: Disjunction) {
    d == []
  }

  function FromLeaves(c: Conjunction): (ps: seq<Predicate>)
  {
    seq(|c|, i requires 0 <= i < |c| => FromLeaf(c[i]))
  }

  function FromConjunction(c: Conjunction): Predicate {
    if |c| == 1 then FromLeaf(c[0]) else All(FromLeaves(c))
  }

  function FromConjunctions(d: Disjunction): (ps: seq<Predicate>)
  {
    seq(|d|, i requires 0 <= i < |d| => FromConjunction(d[i]))
  }

  function ToPredicate(d: Disjunction): Predicate {
    if IsContradiction(d) then Constant(false)
    else if IsTautology(d) then Constant(true)
    else
      var disjuncts := FromConjunctions(d);
      if |disjuncts| == 1 then disjuncts[0] else Any(disjuncts)
  }

  // ---------- meaning is preserved ----------

  lemma NegatedIsComplement(l: Leaf, s: State, m: Meaning)
    ensures LeafHolds(l.Negated(), s, m) <==> !LeafHolds(l, s, m)
    ensures l.Negated().Negated() == l
    ensures l.Negated().Ref() == l.Ref() && l.Negated().Scope() == l.Scope()
  {}

  lemma ConcatHolds(a: Disjunction, b: Disjunction, s: State, m: Meaning)
    ensures DisjunctionHolds(a + b, s, m) <==> DisjunctionHolds(a, s, m) || DisjunctionHolds(b, s, m)
  {}

  lemma ExtendHolds(prefix: Conjunction, parts: Disjunction, s: State, m: Meaning)
    ensures DisjunctionHolds(Extend(prefix, parts), s, m)
       <==> ConjunctionHolds(prefix, s, m) && DisjunctionHolds(parts, s, m)
  {
    var d := Extend(prefix, parts);
    forall i | 0 <= i < |parts|
      ensures ConjunctionHolds(d[i], s, m) <==> ConjunctionHolds(prefix, s, m) && ConjunctionHolds(parts[i], s, m)
    {
      forall l | l in prefix || l in parts[i] ensures l in d[i] {}
    }
    if ConjunctionHolds(prefix, s, m) && DisjunctionHolds(parts, s, m) {
      var i :| 0 <= i < |parts| && ConjunctionHolds(parts[i], s, m);
      assert d[i] in d;
    }
    if DisjunctionHolds(d, s, m) {
      var i :| 0 <= i < |d| && ConjunctionHolds(d[i], s, m);
      assert parts[i] in parts;
    }
  }

  lemma {:induction false} DistributeHolds(acc: Disjunction, parts: Disjunction, s: State, m: Meaning)
    ensures DisjunctionHolds(Distribute(acc, parts), s, m)
       <==> DisjunctionHolds(acc, s, m) && DisjunctionHolds(parts, s, m)
  {
    if acc != [] {
      ExtendHolds(acc[0], parts, s, m);
      DistributeHolds(acc[1..], parts, s, m);
      ConcatHolds(Extend(acc[0], parts), Distribute(acc[1..], parts), s, m);
      assert acc == [acc[0]] + acc[1..];
      ConcatHolds([acc[0]], acc[1..], s, m);
    }
  }

  /** Compiling keeps the meaning: the disjuncts hold exactly where the predicate does. */
  lemma {:induction false} DisjunctsMeaning(p: Predicate, s: State, m: Meaning)
    ensures DisjunctionHolds(IntoDisjuncts(p), s, m) <==> Holds(p, s, m)
    decreases Weight(p), LeadingNots(p), 0
  {
    match p
    case All(all) =>
      FoldMeaning([[]], all, s, m);
      var unit: Disjunction := [[]];
      assert unit[0] in unit && ConjunctionHolds(unit[0], s, m);
    case Any(any) => FlatMapMeaning(any, s, m);
    case Not(inner) => NegationMeaning(inner, s, m);
    case Constant(b) => assert ConjunctionHolds([], s, m);
    case leaf =>
      assert [ToLeaf(p)] in IntoDisjuncts(p) && ToLeaf(p) in [ToLeaf(p)];
  }

  /** The negated compilation holds exactly where the predicate does not. */
  lemma {:induction false} NegationMeaning(p: Predicate, s: State, m: Meaning)
    ensures DisjunctionHolds(IntoNegation(p), s, m) <==> !Holds(p, s, m)
    decreases Weight(p), LeadingNots(p), 1
  {
    match p
    case All(all) =>
      DisjunctsMeaning(Any(Negations(all)), s, m);
      NegationsMeaning(all, s, m);
    case Any(any) =>
      DisjunctsMeaning(All(Negations(any)), s, m);
      NegationsMeaning(any, s, m);
    case Not(inner) => DisjunctsMeaning(inner, s, m);
    case Constant(b) => assert ConjunctionHolds([], s, m);
    case leaf =>
      NegatedIsComplement(ToLeaf(p), s, m);
      assert [ToLeaf(p).Negated()] in IntoNegation(p) && ToLeaf(p).Negated() in [ToLeaf(p).Negated()];
  }

  /** De Morgan, for the wrapped lists that negation builds. */
  lemma NegationsMeaning(ps: seq<Predicate>, s: State, m: Meaning)
    ensures Holds(Any(Negations(ps)), s, m) <==> !Holds(All(ps), s, m)
    ensures Holds(All(Negations(ps)), s, m) <==> !Holds(Any(ps), s, m)
  {
    MembersNegated(ps, s, m);
  }

  lemma {:induction false} MembersNegated(ps: seq<Predicate>, s: State, m: Meaning)
    ensures (exists c | c in Negations(ps) :: Holds(c, s, m)) <==> exists c | c in ps :: !Holds(c, s, m)
    ensures (exists c | c in Negations(ps) :: !Holds(c, s, m)) <==> exists c | c in ps :: Holds(c, s, m)
    decreases ps
  {
    hide Holds;
    if ps != [] {
      NotHolds(ps[0], s, m);
      MembersNegated(ps[1..], s, m);
      assert ps == [ps[0]] + ps[1..];
      assert Negations(ps) == [Not(ps[0])] + Negations(ps[1..]);
    }
  }

  lemma NotHolds(p: Predicate, s: State, m: Meaning)
    ensures Holds(Not(p), s, m) <==> !Holds(p, s, m)
  {}

  lemma {:induction false} FoldMeaning(acc: Disjunction, clauses: seq<Predicate>, s: State, m: Meaning)
    ensures DisjunctionHolds(FoldClauses(acc, clauses), s, m)
       <==> DisjunctionHolds(acc, s, m) && forall c | c in clauses :: Holds(c, s, m)
    decreases Weights(clauses), 0, 0
  {
    if clauses != [] {
      assert clauses == [clauses[0]] + clauses[1..];
      if acc == [] {
        FoldMeaning(acc, clauses[1..], s, m);
      } else {
        var parts := IntoDisjuncts(clauses[0]);
        DisjunctsMeaning(clauses[0], s, m);
        if parts == [] {
          FoldMeaning([], clauses[1..], s, m);
        } else {
          DistributeHolds(acc, parts, s, m);
          FoldMeaning(Distribute(acc, parts), clauses[1..], s, m);
        }
      }
    }
  }

  lemma {:induction false} FlatMapMeaning(ps: seq<Predicate>, s: State, m: Meaning)
    ensures DisjunctionHolds(FlatMapDisjuncts(ps), s, m) <==> exists c | c in ps :: Holds(c, s, m)
    decreases Weights(ps), 0, 0
  {
    if ps != [] {
      assert ps == [ps[0]] + ps[1..];
      DisjunctsMeaning(ps[0], s, m);
      FlatMapMeaning(ps[1..], s, m);
      ConcatHolds(IntoDisjuncts(ps[0]), FlatMapDisjuncts(ps[1..]), s, m);
    }
  }

  // ---------- no setting is invented ----------

  lemma {:induction false} DisjunctsRefs(p: Predicate)
    ensures DisjunctionRefs(IntoDisjuncts(p)) <= RefsOf(p)
    decreases Weight(p), LeadingNots(p), 0
  {
    match p
    case All(all) => FoldRefs([[]], all);
    case Any(any) => FlatMapRefs(any);
    case Not(inner) => NegationRefs(inner);
    case Constant(b) =>
    case leaf =>
  }

  lemma {:induction false} NegationRefs(p: Predicate)
    ensures DisjunctionRefs(IntoNegation(p)) <= RefsOf(p)
    decreases Weight(p), LeadingNots(p), 1
  {
    match p
    case All(all) =>
      DisjunctsRefs(Any(Negations(all)));
      NegationsRefs(all);
    case Any(any) =>
      DisjunctsRefs(All(Negations(any)));
      NegationsRefs(any);
    case Not(inner) => DisjunctsRefs(inner);
    case Constant(b) =>
    case leaf =>
  }

  lemma NegationsRefs(ps: seq<Predicate>)
    ensures RefsOfAll(Negations(ps)) == RefsOfAll(ps)
  {}

  lemma ExtendRefs(prefix: Conjunction, parts: Disjunction)
    ensures DisjunctionRefs(Extend(prefix, parts)) <= DisjunctionRefs([prefix]) + DisjunctionRefs(parts)
  {
    forall c, l | c in Extend(prefix, parts) && l in c
      ensures l.Ref() in DisjunctionRefs([prefix]) + DisjunctionRefs(parts)
    {
      var i :| 0 <= i < |parts| && c == prefix + parts[i];
      assert prefix in [prefix] && parts[i] in parts;
      assert l in prefix || l in parts[i];
    }
  }

  lemma ConcatRefs(a: Disjunction, b: Disjunction)
    ensures DisjunctionRefs(a + b) == DisjunctionRefs(a) + DisjunctionRefs(b)
  {
    forall c ensures c in a + b <==> c in a || c in b {}
  }

  lemma {:induction false} DistributeRefs(acc: Disjunction, parts: Disjunction)
    ensures DisjunctionRefs(Distribute(acc, parts)) <= DisjunctionRefs(acc) + DisjunctionRefs(parts)
  {
    if acc != [] {
      assert acc == [acc[0]] + acc[1..];
      ConcatRefs([acc[0]], acc[1..]);
      ExtendRefs(acc[0], parts);
      DistributeRefs(acc[1..], parts);
      ConcatRefs(Extend(acc[0], parts), Distribute(acc[1..], parts));
    }
  }

  lemma {:induction false} FoldRefs(acc: Disjunction, clauses: seq<Predicate>)
    ensures DisjunctionRefs(FoldClauses(acc, clauses)) <= DisjunctionRefs(acc) + RefsOfAll(clauses)
    decreases Weights(clauses), 0, 0
  {
    if clauses != [] {
      if acc == [] {
        FoldRefs(acc, clauses[1..]);
      } else {
        var parts := IntoDisjuncts(clauses[0]);
        DisjunctsRefs(clauses[0]);
        if parts == [] {
          FoldRefs([], clauses[1..]);
        } else {
          DistributeRefs(acc, parts);
          FoldRefs(Distribute(acc, parts), clauses[1..]);
        }
      }
    }
  }

  lemma {:induction false} FlatMapRefs(ps: seq<Predicate>)
    ensures DisjunctionRefs(FlatMapDisjuncts(ps)) <= RefsOfAll(ps)
    decreases Weights(ps), 0, 0
  {
    if ps != [] {
      DisjunctsRefs(ps[0]);
      FlatMapRefs(ps[1..]);
    }
  }

  // ---------- how large the normal form is ----------

  /** Number of disjuncts of `p` (positive) or of its negation, by structural recursion only:
      conjunction multiplies, disjunction adds, and negation swaps the two. */
  function Count(p: Predicate, positive: bool): nat
    decreases p
  {
    match p
    case All(all) => if positive then CountProduct(all, positive) else CountSum(all, positive)
    case Any(any) => if positive then CountSum(any, positive) else CountProduct(any, positive)
    case Not(inner) => Count(inner, !positive)
    case Constant(b) => if b == positive then 1 else 0
    case _ => 1
  }

  function CountProduct(ps: seq<Predicate>, positive: bool): nat
    decreases ps
  {
    if ps == [] then 1 else Count(ps[0], positive) * CountProduct(ps[1..], positive)
  }

  function CountSum(ps: seq<Predicate>, positive: bool): nat
    decreases ps
  {
    if ps == [] then 0 else Count(ps[0], positive) + CountSum(ps[1..], positive)
  }

  lemma {:induction false} DisjunctsCount(p: Predicate)
    ensures |IntoDisjuncts(p)| == Count(p, true)
    decreases Weight(p), LeadingNots(p), 0
  {
    match p
    case All(all) => FoldCount([[]], all);
    case Any(any) => FlatMapCount(any);
    case Not(inner) => NegationCount(inner);
    case Constant(b) =>
    case leaf =>
  }

  lemma {:induction false} NegationCount(p: Predicate)
    ensures |IntoNegation(p)| == Count(p, false)
    decreases Weight(p), LeadingNots(p), 1
  {
    match p
    case All(all) =>
      DisjunctsCount(Any(Negations(all)));
      NegationsCount(all);
    case Any(any) =>
      DisjunctsCount(All(Negations(any)));
      NegationsCount(any);
    case Not(inner) => DisjunctsCount(inner);
    case Constant(b) =>
    case leaf =>
  }

  lemma NegationsCount(ps: seq<Predicate>)
    ensures CountSum(Negations(ps), true) == CountSum(ps, false)
    ensures CountProduct(Negations(ps), true) == CountProduct(ps, false)
  {}

  lemma {:induction false} DistributeCount(acc: Disjunction, parts: Disjunction)
    ensures |Distribute(acc, parts)| == |acc| * |parts|
  {
    if acc != [] {
      DistributeCount(acc[1..], parts);
      assert |acc| * |parts| == |parts| + (|acc| - 1) * |parts|;
    }
  }

  lemma {:induction false} FoldCount(acc: Disjunction, clauses: seq<Predicate>)
    ensures |FoldClauses(acc, clauses)| == |acc| * CountProduct(clauses, true)
    decreases Weights(clauses), 0, 0
  {
    if clauses != [] {
      if acc == [] {
        FoldCount(acc, clauses[1..]);
      } else {
        var parts := IntoDisjuncts(clauses[0]);
        DisjunctsCount(clauses[0]);
        if parts == [] {
          FoldCount([], clauses[1..]);
        } else {
          DistributeCount(acc, parts);
          FoldCount(Distribute(acc, parts), clauses[1..]);
          MulAssociative(|acc|, |parts|, CountProduct(clauses[1..], true));
        }
      }
    }
  }

  lemma MulAssociative(a: int, b: int, c: int)
    ensures (a * b) * c == a * (b * c)
  {}

  lemma {:induction false} FlatMapCount(ps: seq<Predicate>)
    ensures |FlatMapDisjuncts(ps)| == CountSum(ps, true)
    decreases Weights(ps), 0, 0
  {
    if ps != [] {
      DisjunctsCount(ps[0]);
      FlatMapCount(ps[1..]);
    }
  }

  // ---------- the normal form is a fixpoint ----------

  lemma LeafRoundTrip(l: Leaf)
    ensures IntoDisjuncts(FromLeaf(l)) == [[l]]
  {}

  lemma {:induction false} FoldLeaves(prefix: Conjunction, c: Conjunction)
    ensures FoldClauses([prefix], FromLeaves(c)) == [prefix + c]
    decreases c
  {
    if c == [] {
      assert prefix + c == prefix;
    } else {
      LeafRoundTrip(c[0]);
      assert FromLeaves(c)[1..] == FromLeaves(c[1..]);
      assert Distribute([prefix], [[c[0]]]) == [prefix + [c[0]]];
      FoldLeaves(prefix + [c[0]], c[1..]);
      assert prefix + [c[0]] + c[1..] == prefix + c;
    }
  }

  lemma ConjunctionRoundTrip(c: Conjunction)
    ensures IntoDisjuncts(FromConjunction(c)) == [c]
  {
    if |c| == 1 {
      LeafRoundTrip(c[0]);
      assert c == [c[0]];
    } else {
      FoldLeaves([], c);
      assert [] + c == c;
    }
  }

  lemma {:induction false} FlatMapConjunctions(d: Disjunction)
    ensures FlatMapDisjuncts(FromConjunctions(d)) == d
    decreases d
  {
    if d != [] {
      ConjunctionRoundTrip(d[0]);
      assert FromConjunctions(d)[1..] == FromConjunctions(d[1..]);
      FlatMapConjunctions(d[1..]);
      assert d == [d[0]] + d[1..];
    }
  }

  /** Turning a normal form into a predicate and compiling it again gives it back leaf for leaf,
      unless one of its conjunctions is empty: then the result is the single empty conjunction. */
  lemma NormalFormIsFixpoint(d: Disjunction)
    ensures IntoDisjuncts(ToPredicate(d)) == if [] in d then [[]] else d
  {
    if !IsContradiction(d) && !IsTautology(d) {
      if |d| == 1 {
        ConjunctionRoundTrip(d[0]);
        assert d == [d[0]];
      } else {
        FlatMapConjunctions(d);
      }
    }
  }

  /** Compiling what was already compiled changes nothing but a tautology's spelling. */
  lemma CompilationIsIdempotent(p: Predicate)
    ensures var d := FromPredicate(p);
            FromPredicate(ToPredicate(d)) == if [] in d then [[]] else d
  {
    NormalFormIsFixpoint(FromPredicate(p));
  }

  lemma ToPredicateMeaning(d: Disjunction, s: State, m: Meaning)
    ensures Holds(ToPredicate(d), s, m) <==> DisjunctionHolds(d, s, m)
  {
    NormalFormIsFixpoint(d);
    DisjunctsMeaning(ToPredicate(d), s, m);
    if IsTautology(d) {
      var empty :| empty in d && empty == [];
      assert ConjunctionHolds(empty, s, m);
      var unit: Disjunction := [[]];
      assert unit[0] in unit && ConjunctionHolds(unit[0], s, m);
    }
  }

  // ---------- in which order ----------

  /** One disjunct chosen from each clause. */
  predicate Picks(ps: seq<Predicate>, picks: seq<nat>) {
    |picks| == |ps| && forall i | 0 <= i < |ps| :: picks[i] < |IntoDisjuncts(ps[i])|
  }

  /** The chosen disjuncts, one after the other. */
  function Chosen(ps: seq<Predicate>, picks: seq<nat>): Conjunction
    requires Picks(ps, picks)
    decreases ps
  {
    if ps == [] then [] else IntoDisjuncts(ps[0])[picks[0]] + Chosen(ps[1..], picks[1..])
  }

  /** Where the choice stands when the last clause varies fastest. */
  function Rank(a: nat, ps: seq<Predicate>, picks: seq<nat>): nat
    requires |picks| == |ps|
    decreases ps
  {
    if ps == [] then a else Rank(a * |IntoDisjuncts(ps[0])| + picks[0], ps[1..], picks[1..])
  }

  lemma {:induction false} DistributeAt(acc: Disjunction, parts: Disjunction, a: nat, b: nat)
    requires a < |acc| && b < |parts|
    ensures a * |parts| + b < |Distribute(acc, parts)|
    ensures Distribute(acc, parts)[a * |parts| + b] == acc[a] + parts[b]
    decreases acc
  {
    if a > 0 {
      DistributeAt(acc[1..], parts, a - 1, b);
      assert a * |parts| == |parts| + (a - 1) * |parts|;
      assert (a - 1) * |parts| >= 0;
    }
  }

  lemma {:induction false} FoldAt(acc: Disjunction, ps: seq<Predicate>, a: nat, picks: seq<nat>)
    requires a < |acc| && Picks(ps, picks)
    ensures Rank(a, ps, picks) < |FoldClauses(acc, ps)|
    ensures FoldClauses(acc, ps)[Rank(a, ps, picks)] == acc[a] + Chosen(ps, picks)
    decreases ps
  {
    hide IntoDisjuncts;
    if ps == [] {
      assert acc[a] + [] == acc[a];
    } else {
      var parts := IntoDisjuncts(ps[0]);
      DistributeAt(acc, parts, a, picks[0]);
      var product := Distribute(acc, parts);
      FoldAt(product, ps[1..], a * |parts| + picks[0], picks[1..]);
      assert acc[a] + (parts[picks[0]] + Chosen(ps[1..], picks[1..])) == (acc[a] + parts[picks[0]]) + Chosen(ps[1..], picks[1..]);
    }
  }

  /** The disjuncts of `all` are the concatenations of one disjunct of each clause, in the order
      in which the last clause varies fastest: every choice stands at its own place. */
  lemma AllInOrder(ps: seq<Predicate>, picks: seq<nat>)
    requires Picks(ps, picks)
    ensures Rank(0, ps, picks) < |IntoDisjuncts(All(ps))|
    ensures IntoDisjuncts(All(ps))[Rank(0, ps, picks)] == Chosen(ps, picks)
  {
    var unit: Disjunction := [[]];
    FoldAt(unit, ps, 0, picks);
    assert [] + Chosen(ps, picks) == Chosen(ps, picks);
  }

  /** The disjuncts of `any` are those of its parts, part by part. */
  lemma {:induction false} AnyInOrder(ps: seq<Predicate>, i: nat, j: nat)
    requires i < |ps| && j < |IntoDisjuncts(ps[i])|
    ensures |IntoDisjuncts(Any(ps[..i]))| + j < |IntoDisjuncts(Any(ps))|
    ensures IntoDisjuncts(Any(ps))[|IntoDisjuncts(Any(ps[..i]))| + j] == IntoDisjuncts(ps[i])[j]
  {
    FlatMapSplits(ps[..i], ps[i..]);
    assert ps == ps[..i] + ps[i..];
    assert ps[i..][0] == ps[i];
  }

  lemma {:induction false} FlatMapSplits(a: seq<Predicate>, b: seq<Predicate>)
    ensures FlatMapDisjuncts(a + b) == FlatMapDisjuncts(a) + FlatMapDisjuncts(b)
    decreases a
  {
    hide IntoDisjuncts;
    if a == [] {
      assert a + b == b;
    } else {
      assert (a + b)[1..] == a[1..] + b;
      FlatMapSplits(a[1..], b);
    }
  }
}
