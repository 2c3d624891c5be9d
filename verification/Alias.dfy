/** Alias transformations: a rule written over an alias is rewritten to speak about the
    settings the alias expands to. */
module Alias {
  import opened Wrappers
  import opened Grammar
  import opened Dnf
  import opened Multisets

  datatype Effect = Set(v: Value) | Clear

  datatype Assignment = Assignment(ref: string, effect: Effect)

  datatype Transformation = Transformation(when: Option<Predicate>, apply: seq<Assignment>, oneWay: bool)

  datatype Normalized = Normalized(trigger: Disjunction, expansion: Conjunction)

  function AssignmentLeaf(a: Assignment): Leaf {
    match a.effect
    case Set(v) => IsEqual(LeafEquals(a.ref, Current, v))
    case Clear => IsPresent(LeafPresent(a.ref, Current, false))
  }

  function Expansion(apply: seq<Assignment>): (c: Conjunction)
    ensures |c| == |apply|
    ensures forall i | 0 <= i < |apply| :: c[i] == AssignmentLeaf(apply[i])
  {
    if apply == [] then [] else [AssignmentLeaf(apply[0])] + Expansion(apply[1..])
  }

  function Normalize(t: Transformation): Option<Normalized> {
    match t.when
    case None => None
    case Some(when) =>
      if t.apply == [] then None
      else
        var trigger := FromPredicate(when);
        if IsContradiction(trigger) then None
        else Some(Normalized(trigger, Expansion(t.apply)))
  }

  // ---------- rewriting ----------

  predicate ContainsAll(c: Conjunction, needle: Conjunction) {
    multiset(needle) <= multiset(c)
  }

  /** Index of the first trigger disjunct contained in `c`, or |trigger|. */
  function FirstMatch(c: Conjunction, trigger: Disjunction): (k: nat)
    ensures k <= |trigger|
    ensures k < |trigger| ==> ContainsAll(c, trigger[k])
    ensures forall j | 0 <= j < k :: !ContainsAll(c, trigger[j])
  {
    if trigger == [] then 0
    else if ContainsAll(c, trigger[0]) then 0
    else 1 + FirstMatch(c, trigger[1..])
  }

  predicate Matches(c: Conjunction, alias: Normalized) {
    FirstMatch(c, alias.trigger) < |alias.trigger|
  }

  /** Removes one occurrence of each literal, filling holes from the end. */
  function RemoveEach(c: Conjunction, lits: Conjunction): Conjunction
    decreases lits
  {
    if lits == [] then c
    else
      var pos := Position(c, lits[0]);
      RemoveEach(if pos < |c| then SwapRemove(c, pos) else c, lits[1..])
  }

  function Transform(c: Conjunction, alias: Normalized): Conjunction {
    var k := FirstMatch(c, alias.trigger);
    if k == |alias.trigger| then c else RemoveEach(c, alias.trigger[k]) + alias.expansion
  }

  function TransformDnf(d: Disjunction, alias: Normalized): (r: Disjunction)
  {
    seq(|d|, i requires 0 <= i < |d| => Transform(d[i], alias))
  }

  function TransformAll(d: Disjunction, aliases: seq<Normalized>): Disjunction
    decreases aliases
  {
    if aliases == [] then d else TransformAll(TransformDnf(d, aliases[0]), aliases[1..])
  }

  /** The vector version: `swap_remove` in place, then `extend`, for the first match only. */
  method TransformInPlace(c: Conjunction, alias: Normalized) returns (self: Conjunction)
    ensures self == Transform(c, alias)
  {
    self := c;
    for d := 0 to |alias.trigger|
      invariant self == c
      invariant forall j | 0 <= j < d :: !ContainsAll(c, alias.trigger[j])
    {
      var disjunct := alias.trigger[d];
      var included := Subset(disjunct, self);
      if included {
        assert d == FirstMatch(c, alias.trigger);
        for i := 0 to |disjunct|
          invariant RemoveEach(self, disjunct[i..]) == RemoveEach(c, disjunct)
        {
          var pos := Position(self, disjunct[i]);
          assert disjunct[i..][1..] == disjunct[i + 1..];
          if pos < |self| {
            self := SwapRemove(self, pos);
          }
        }
        self := self + alias.expansion;
        return;
      }
    }
  }

  // ---------- what rewriting does to the literals ----------

  lemma {:induction false} RemoveEachMultiset(c: Conjunction, lits: Conjunction)
    requires ContainsAll(c, lits)
    ensures multiset(RemoveEach(c, lits)) == multiset(c) - multiset(lits)
    decreases lits
  {
    if lits != [] {
      HeadTail(lits);
      var pos := Position(c, lits[0]);
      assert multiset(lits)[lits[0]] > 0;
      SwapRemoveMultiset(c, pos);
      RemoveEachMultiset(SwapRemove(c, pos), lits[1..]);
    }
  }

  /** Exactly the matched literals leave and exactly the expansion arrives; without a match
      nothing changes. */
  lemma TransformMultiset(c: Conjunction, alias: Normalized)
    ensures !Matches(c, alias) ==> Transform(c, alias) == c
    ensures Matches(c, alias) ==>
              multiset(Transform(c, alias))
              == multiset(c) - multiset(alias.trigger[FirstMatch(c, alias.trigger)]) + multiset(alias.expansion)
  {
    if Matches(c, alias) {
      RemoveEachMultiset(c, alias.trigger[FirstMatch(c, alias.trigger)]);
    }
  }

  // ---------- what rewriting does to the meaning ----------

  function ApplyEffect(m: map<string, Value>, a: Assignment): map<string, Value> {
    match a.effect
    case Set(v) => m[a.ref := v]
    case Clear => m - {a.ref}
  }

  /** Assignments run in order on the current settings. */
  function Apply(s: State, apply: seq<Assignment>): State
    decreases apply
  {
    if apply == [] then s else Apply(s.(current := ApplyEffect(s.current, apply[0])), apply[1..])
  }

  predicate DistinctRefs(apply: seq<Assignment>) {
    forall i, j | 0 <= i < j < |apply| :: apply[i].ref != apply[j].ref
  }

  predicate Assigns(apply: seq<Assignment>, ref: string) {
    exists a | a in apply :: a.ref == ref
  }

  predicate Reads(l: Leaf, apply: seq<Assignment>) {
    l.Scope() == Current && Assigns(apply, l.Ref())
  }

  /** No literal that stays in the rewritten conjunction reads a setting the alias assigns. */
  predicate Independent(c: Conjunction, matched: Conjunction, apply: seq<Assignment>) {
    forall l | l in multiset(c) - multiset(matched) :: !Reads(l, apply)
  }

  /** A value compares equal to itself: all that is assumed of the comparison semantics. */
  ghost predicate Reflexive(m: Meaning) {
    forall r: string, v: Value :: m(r, EqualTo(v), v)
  }

  lemma {:induction false} ApplyFrame(s: State, apply: seq<Assignment>, r: string)
    requires !Assigns(apply, r)
    ensures EqualOn(Apply(s, apply).current, s.current, r)
    ensures Apply(s, apply).original == s.original
    decreases apply
  {
    if apply != [] {
      assert apply[0] in apply;
      assert !Assigns(apply[1..], r);
      ApplyFrame(s.(current := ApplyEffect(s.current, apply[0])), apply[1..], r);
    }
  }

  lemma {:induction false} ApplyOriginal(s: State, apply: seq<Assignment>)
    ensures Apply(s, apply).original == s.original
    decreases apply
  {
    if apply != [] { ApplyOriginal(s.(current := ApplyEffect(s.current, apply[0])), apply[1..]); }
  }

  /** After the assignments every leaf of the expansion holds. */
  lemma {:induction false} ExpansionHolds(s: State, apply: seq<Assignment>, m: Meaning, i: nat)
    requires DistinctRefs(apply) && Reflexive(m) && i < |apply|
    ensures LeafHolds(AssignmentLeaf(apply[i]), Apply(s, apply), m)
    decreases apply
  {
    var next := s.(current := ApplyEffect(s.current, apply[0]));
    if i == 0 {
      assert !Assigns(apply[1..], apply[0].ref);
      ApplyFrame(next, apply[1..], apply[0].ref);
    } else {
      ExpansionHolds(next, apply[1..], m, i - 1);
    }
  }

  lemma UnreadLeafKeepsMeaning(l: Leaf, s: State, apply: seq<Assignment>, m: Meaning)
    requires !Reads(l, apply)
    ensures LeafHolds(l, Apply(s, apply), m) <==> LeafHolds(l, s, m)
  {
    ApplyOriginal(s, apply);
    if l.Scope() == Current { ApplyFrame(s, apply, l.Ref()); }
  }

  /** The settings the assignments leave behind, whatever the state before. */
  function Assigned(apply: seq<Assignment>): State { Apply(State(map[], map[]), apply) }

  lemma {:induction false} ApplyAgrees(s: State, t: State, apply: seq<Assignment>, r: string)
    requires Assigns(apply, r)
    ensures EqualOn(Apply(s, apply).current, Apply(t, apply).current, r)
    decreases apply
  {
    var s', t' := s.(current := ApplyEffect(s.current, apply[0])), t.(current := ApplyEffect(t.current, apply[0]));
    if Assigns(apply[1..], r) {
      ApplyAgrees(s', t', apply[1..], r);
    } else {
      ApplyFrame(s', apply[1..], r);
      ApplyFrame(t', apply[1..], r);
      var a :| a in apply && a.ref == r;
      assert a == apply[0] || a in apply[1..];
    }
  }

  lemma ReadLeafMeaning(l: Leaf, s: State, apply: seq<Assignment>, m: Meaning)
    requires Reads(l, apply)
    ensures LeafHolds(l, Apply(s, apply), m) <==> LeafHolds(l, Assigned(apply), m)
  {
    ApplyAgrees(s, State(map[], map[]), apply, l.Ref());
  }

  /** The trigger disjunct the rewrite takes out. */
  function Matched(c: Conjunction, alias: Normalized): Conjunction
    requires Matches(c, alias)
  {
    alias.trigger[FirstMatch(c, alias.trigger)]
  }

  /** Every literal that stays and reads an assigned setting holds of the assignments alone. */
  predicate StayingSatisfied(c: Conjunction, matched: Conjunction, apply: seq<Assignment>, m: Meaning) {
    forall l | l in multiset(c) - multiset(matched) && Reads(l, apply) :: LeafHolds(l, Assigned(apply), m)
  }

  /** No assignment is undone by a later one. */
  predicate ExpansionSatisfied(apply: seq<Assignment>, m: Meaning) {
    forall i | 0 <= i < |apply| :: LeafHolds(AssignmentLeaf(apply[i]), Assigned(apply), m)
  }

  /** What can be checked before rewriting: it needs the conjunction, the alias and the
      comparison, but neither the result nor a state. */
  predicate KeepsMeaning(c: Conjunction, t: Transformation, m: Meaning)
    requires Normalize(t).Some? && Matches(c, Normalize(t).value)
  {
    StayingSatisfied(c, Matched(c, Normalize(t).value), t.apply, m) && ExpansionSatisfied(t.apply, m)
  }

  /** The literals of a rewritten conjunction are those that stay and those of the expansion. */
  lemma RewrittenLiterals(c: Conjunction, t: Transformation, l: Leaf)
    requires Normalize(t).Some? && Matches(c, Normalize(t).value)
    ensures var alias := Normalize(t).value;
            l in Transform(c, alias) <==>
              || l in multiset(c) - multiset(Matched(c, alias))
              || exists i :: 0 <= i < |t.apply| && l == AssignmentLeaf(t.apply[i])
  {
    hide FromPredicate, FirstMatch, Transform, RemoveEach;
    var alias := Normalize(t).value;
    TransformMultiset(c, alias);
    var r := Transform(c, alias);
    assert l in r <==> l in multiset(r);
    assert l in multiset(alias.expansion) <==> l in alias.expansion;
    if i :| 0 <= i < |t.apply| && l == AssignmentLeaf(t.apply[i]) { assert alias.expansion[i] == l; }
  }

  /** A conjunction holds after the assignments if its parts do. */
  lemma RewrittenHolds(c: Conjunction, t: Transformation, s: State, m: Meaning)
    requires Normalize(t).Some? && Matches(c, Normalize(t).value)
    ensures var alias := Normalize(t).value;
            ConjunctionHolds(Transform(c, alias), s, m) <==>
              && (forall l | l in multiset(c) - multiset(Matched(c, alias)) :: LeafHolds(l, s, m))
              && (forall i | 0 <= i < |t.apply| :: LeafHolds(AssignmentLeaf(t.apply[i]), s, m))
  {
    hide Normalize, Matches, Matched, Transform, LeafHolds, AssignmentLeaf;
    forall l ensures l in Transform(c, Normalize(t).value) <==>
                       || l in multiset(c) - multiset(Matched(c, Normalize(t).value))
                       || exists i :: 0 <= i < |t.apply| && l == AssignmentLeaf(t.apply[i]) {
      RewrittenLiterals(c, t, l);
    }
    forall i | 0 <= i < |t.apply| ensures AssignmentLeaf(t.apply[i]) in Transform(c, Normalize(t).value) {}
  }

  lemma StayingMeaning(c: Conjunction, matched: Conjunction, apply: seq<Assignment>, s: State, m: Meaning)
    requires ConjunctionHolds(c, s, m)
    ensures (forall l | l in multiset(c) - multiset(matched) :: LeafHolds(l, Apply(s, apply), m)) <==>
              StayingSatisfied(c, matched, apply, m)
  {
    hide LeafHolds, Reads, Apply, Assigned;
    forall l | l in multiset(c) - multiset(matched)
      ensures LeafHolds(l, Apply(s, apply), m) <==> (Reads(l, apply) ==> LeafHolds(l, Assigned(apply), m))
    {
      assert l in multiset(c);
      if Reads(l, apply) { ReadLeafMeaning(l, s, apply, m); } else { UnreadLeafKeepsMeaning(l, s, apply, m); }
    }
  }

  lemma ExpansionMeaning(apply: seq<Assignment>, s: State, m: Meaning, i: nat)
    requires i < |apply|
    ensures LeafHolds(AssignmentLeaf(apply[i]), Apply(s, apply), m) <==> LeafHolds(AssignmentLeaf(apply[i]), Assigned(apply), m)
  {
    assert apply[i] in apply;
    ReadLeafMeaning(AssignmentLeaf(apply[i]), s, apply, m);
  }

  /** For every state that satisfies the conjunction: the rewritten one holds after the
      assignments exactly when the condition held beforehand. */
  lemma RewriteIsExact(c: Conjunction, t: Transformation, s: State, m: Meaning)
    requires Normalize(t).Some? && Matches(c, Normalize(t).value)
    requires ConjunctionHolds(c, s, m)
    ensures Holds(t.when.value, s, m)
    ensures ConjunctionHolds(Transform(c, Normalize(t).value), Apply(s, t.apply), m) <==> KeepsMeaning(c, t, m)
  {
    TriggerHolds(c, t, s, m);
    RewrittenHolds(c, t, Apply(s, t.apply), m);
    StayingMeaning(c, Matched(c, Normalize(t).value), t.apply, s, m);
    hide LeafHolds, AssignmentLeaf, Apply, Assigned, Normalize, Matches, Matched, Transform, Holds, Reads;
    forall i | 0 <= i < |t.apply|
      ensures LeafHolds(AssignmentLeaf(t.apply[i]), Apply(s, t.apply), m) <==>
                LeafHolds(AssignmentLeaf(t.apply[i]), Assigned(t.apply), m)
    {
      ExpansionMeaning(t.apply, s, m, i);
    }
  }

  /** With distinct refs nothing the alias sets is undone, and only the literals that stay can
      break the rewrite. */
  lemma RewriteOfDistinctIsExact(c: Conjunction, t: Transformation, s: State, m: Meaning)
    requires Normalize(t).Some? && Matches(c, Normalize(t).value)
    requires DistinctRefs(t.apply) && Reflexive(m) && ConjunctionHolds(c, s, m)
    ensures ConjunctionHolds(Transform(c, Normalize(t).value), Apply(s, t.apply), m) <==>
              StayingSatisfied(c, Matched(c, Normalize(t).value), t.apply, m)
  {
    RewriteIsExact(c, t, s, m);
    DistinctIsSatisfied(t.apply, m);
  }

  lemma DistinctIsSatisfied(apply: seq<Assignment>, m: Meaning)
    requires DistinctRefs(apply) && Reflexive(m)
    ensures ExpansionSatisfied(apply, m)
  {
    forall i | 0 <= i < |apply| ensures LeafHolds(AssignmentLeaf(apply[i]), Assigned(apply), m) {
      ExpansionHolds(State(map[], map[]), apply, m, i);
    }
  }

  lemma TriggerHolds(c: Conjunction, t: Transformation, s: State, m: Meaning)
    requires Normalize(t).Some? && Matches(c, Normalize(t).value)
    requires ConjunctionHolds(c, s, m)
    ensures Holds(t.when.value, s, m)
  {
    var trigger := Normalize(t).value.trigger;
    var matched := trigger[FirstMatch(c, trigger)];
    forall l | l in matched ensures l in c {
      assert l in multiset(matched);
      assert l in multiset(c);
    }
    assert ConjunctionHolds(matched, s, m) && matched in trigger;
    DisjunctsMeaning(t.when.value, s, m);
  }

  /** The rewrite is sound: a state that satisfies the original conjunction fires the
      transformation, and the transformed state satisfies the rewritten conjunction. */
  lemma RewriteIsSound(c: Conjunction, t: Transformation, s: State, m: Meaning)
    requires Normalize(t).Some? && Matches(c, Normalize(t).value)
    requires DistinctRefs(t.apply) && Reflexive(m)
    requires var alias := Normalize(t).value;
             Independent(c, alias.trigger[FirstMatch(c, alias.trigger)], t.apply)
    requires ConjunctionHolds(c, s, m)
    ensures Holds(t.when.value, s, m)
    ensures ConjunctionHolds(Transform(c, Normalize(t).value), Apply(s, t.apply), m)
  {
    TriggerHolds(c, t, s, m);
    RewriteOfDistinctIsExact(c, t, s, m);
  }

  // ---------- the whole alias list ----------

  /** `filter_map(Option::from)`: transformations that normalize to nothing are skipped. */
  function NormalizeAll(ts: seq<Transformation>): seq<Normalized> {
    if ts == [] then []
    else match Normalize(ts[0])
      case None => NormalizeAll(ts[1..])
      case Some(n) => [n] + NormalizeAll(ts[1..])
  }

  function FromRule(when: Predicate, aliases: seq<Normalized>): Disjunction {
    TransformAll(FromPredicate(when), aliases)
  }

  /** One conjunction through the whole list. */
  function TransformChain(c: Conjunction, ts: seq<Transformation>): Conjunction
    decreases ts
  {
    if ts == [] then c
    else match Normalize(ts[0])
      case None => TransformChain(c, ts[1..])
      case Some(n) => TransformChain(Transform(c, n), ts[1..])
  }

  /** The state the matching transformations lead to. */
  function StateChain(c: Conjunction, ts: seq<Transformation>, s: State): State
    decreases ts
  {
    if ts == [] then s
    else match Normalize(ts[0])
      case None => StateChain(c, ts[1..], s)
      case Some(n) =>
        StateChain(Transform(c, n), ts[1..], if Matches(c, n) then Apply(s, ts[0].apply) else s)
  }

  predicate ChainIndependent(c: Conjunction, ts: seq<Transformation>)
    decreases ts
  {
    ts != [] ==>
      match Normalize(ts[0])
      case None => ChainIndependent(c, ts[1..])
      case Some(n) =>
        && (Matches(c, n) ==>
              && DistinctRefs(ts[0].apply)
              && Independent(c, n.trigger[FirstMatch(c, n.trigger)], ts[0].apply))
        && ChainIndependent(Transform(c, n), ts[1..])
  }

  /** Every rewrite along the list keeps the meaning. */
  predicate ChainKeepsMeaning(c: Conjunction, ts: seq<Transformation>, m: Meaning)
    decreases ts
  {
    ts != [] ==>
      match Normalize(ts[0])
      case None => ChainKeepsMeaning(c, ts[1..], m)
      case Some(n) => (Matches(c, n) ==> KeepsMeaning(c, ts[0], m)) && ChainKeepsMeaning(Transform(c, n), ts[1..], m)
  }

  lemma {:induction false} IndependentChainKeepsMeaning(c: Conjunction, ts: seq<Transformation>, m: Meaning)
    requires ChainIndependent(c, ts) && Reflexive(m)
    ensures ChainKeepsMeaning(c, ts, m)
    decreases ts
  {
    if ts != [] {
      match Normalize(ts[0])
      case None => IndependentChainKeepsMeaning(c, ts[1..], m);
      case Some(n) =>
        if Matches(c, n) { DistinctIsSatisfied(ts[0].apply, m); }
        IndependentChainKeepsMeaning(Transform(c, n), ts[1..], m);
    }
  }

  lemma {:induction false} ChainIsSound(c: Conjunction, ts: seq<Transformation>, s: State, m: Meaning)
    requires ChainKeepsMeaning(c, ts, m) && ConjunctionHolds(c, s, m)
    ensures ConjunctionHolds(TransformChain(c, ts), StateChain(c, ts, s), m)
    decreases ts
  {
    if ts != [] {
      match Normalize(ts[0])
      case None => ChainIsSound(c, ts[1..], s, m);
      case Some(n) =>
        if Matches(c, n) {
          RewriteIsExact(c, ts[0], s, m);
          ChainIsSound(Transform(c, n), ts[1..], Apply(s, ts[0].apply), m);
        } else {
          ChainIsSound(Transform(c, n), ts[1..], s, m);
        }
    }
  }

  /** The literals that stand for the assignments, one each. */
  ghost predicate StandsFor(literals: seq<Leaf>, apply: seq<Assignment>) {
    && |literals| == |apply|
    && forall i | 0 <= i < |apply| ::
         && (apply[i].effect.Set? ==> literals[i] == IsEqual(LeafEquals(apply[i].ref, Current, apply[i].effect.v)))
         && (apply[i].effect.Clear? ==> literals[i] == IsPresent(LeafPresent(apply[i].ref, Current, false)))
  }

  /** Disjunct `k` of the compiled trigger is the first that the conjunction contains, each
      literal as often as it occurs. */
  ghost predicate FirstContained(c: Conjunction, trigger: Disjunction, k: nat) {
    && k < |trigger| && multiset(trigger[k]) <= multiset(c)
    && forall j | 0 <= j < k :: !(multiset(trigger[j]) <= multiset(c))
  }

  ghost predicate SomeContained(c: Conjunction, trigger: Disjunction) {
    exists k: nat :: FirstContained(c, trigger, k)
  }

  /** `d` left `c` and one literal for each assignment came. */
  ghost predicate Exchanged(c: Conjunction, d: Conjunction, apply: seq<Assignment>, r: Conjunction) {
    exists literals :: StandsFor(literals, apply) && multiset(r) == multiset(c) - multiset(d) + multiset(literals)
  }

  /** Which rewriting one transformation makes: none without a trigger, without assignments or
      without a disjunct of the trigger inside the conjunction; otherwise the first such disjunct
      goes and one literal for each assignment comes. Any list starts with that step. */
  lemma TransformationIsExact(c: Conjunction, t: Transformation, ts: seq<Transformation>)
    ensures TransformChain(c, [t] + ts) == TransformChain(TransformChain(c, [t]), ts)
    ensures t.when.None? || t.apply == [] || !SomeContained(c, IntoDisjuncts(t.when.value)) ==> TransformChain(c, [t]) == c
    ensures forall k: nat | t.when.Some? && t.apply != [] && FirstContained(c, IntoDisjuncts(t.when.value), k) ::
              Exchanged(c, IntoDisjuncts(t.when.value)[k], t.apply, TransformChain(c, [t]))
  {
    ChainStartsWith(c, t, ts);
    ChainStartsWith(c, t, []);
    assert [t] + [] == [t];
    hide IntoDisjuncts, TransformChain, Transform, FirstContained, SomeContained, Exchanged;
    if t.when.Some? && t.apply != [] {
      var trigger := IntoDisjuncts(t.when.value);
      TransformIsExchange(c, trigger, t.apply);
      if trigger == [] { NoneContained(c); }
    }
  }

  lemma ChainStartsWith(c: Conjunction, t: Transformation, ts: seq<Transformation>)
    ensures TransformChain(c, [t] + ts) ==
              match Normalize(t)
              case None => TransformChain(c, ts)
              case Some(n) => TransformChain(Transform(c, n), ts)
  {
    assert ([t] + ts)[1..] == ts;
    hide Normalize, Transform;
  }

  lemma NoneContained(c: Conjunction)
    ensures !SomeContained(c, []) && forall k: nat :: !FirstContained(c, [], k)
  {}

  lemma TransformIsExchange(c: Conjunction, trigger: Disjunction, apply: seq<Assignment>)
    ensures var r := Transform(c, Normalized(trigger, Expansion(apply)));
            && (!SomeContained(c, trigger) ==> r == c)
            && forall k: nat | FirstContained(c, trigger, k) :: Exchanged(c, trigger[k], apply, r)
  {
    var alias := Normalized(trigger, Expansion(apply));
    TransformMultiset(c, alias);
    hide Transform;
    if Matches(c, alias) {
      var k := FirstMatch(c, trigger);
      assert FirstContained(c, trigger, k);
      assert StandsFor(alias.expansion, apply);
      assert Exchanged(c, trigger[k], apply, Transform(c, alias));
    }
  }

  lemma {:induction false} TransformAllPointwise(d: Disjunction, ts: seq<Transformation>, i: nat)
    requires i < |d|
    ensures |TransformAll(d, NormalizeAll(ts))| == |d|
    ensures TransformAll(d, NormalizeAll(ts))[i] == TransformChain(d[i], ts)
    decreases ts
  {
    if ts != [] {
      match Normalize(ts[0])
      case None => TransformAllPointwise(d, ts[1..], i);
      case Some(n) =>
        assert NormalizeAll(ts)[1..] == NormalizeAll(ts[1..]);
        TransformAllPointwise(TransformDnf(d, n), ts[1..], i);
    }
  }

  /** A state that triggers a rule also triggers its normalized form, once the transformations
      that matched have run. */
  lemma NormalizedRuleIsSound(when: Predicate, ts: seq<Transformation>, s: State, m: Meaning)
    requires forall c | c in FromPredicate(when) :: ChainKeepsMeaning(c, ts, m)
    requires Holds(when, s, m)
    ensures exists c | c in FromPredicate(when) ::
              && ConjunctionHolds(c, s, m)
              && DisjunctionHolds(FromRule(when, NormalizeAll(ts)), StateChain(c, ts, s), m)
  {
    var d := FromPredicate(when);
    DisjunctsMeaning(when, s, m);
    var i :| 0 <= i < |d| && ConjunctionHolds(d[i], s, m);
    assert d[i] in d;
    ChainIsSound(d[i], ts, s, m);
    TransformAllPointwise(d, ts, i);
    var r := FromRule(when, NormalizeAll(ts));
    assert r[i] in r && ConjunctionHolds(r[i], StateChain(d[i], ts, s), m);
  }

  /** Without independence the rewrite is not sound: the alias overwrites a setting that a
      remaining literal still reads. */
  lemma OverlappingRewriteIsUnsound(m: Meaning, v: Value, w: Value)
    requires Reflexive(m) && !m("b", EqualTo(v), w)
    ensures var c: Conjunction := [IsEqual(LeafEquals("a", Current, v)), IsEqual(LeafEquals("b", Current, v))];
            var t := Transformation(Some(Equals(LeafEquals("a", Current, v))), [Assignment("b", Set(w))], false);
            var s := State(map["a" := v, "b" := v], map[]);
            && Normalize(t).Some? && Matches(c, Normalize(t).value) && DistinctRefs(t.apply)
            && ConjunctionHolds(c, s, m)
            && !ConjunctionHolds(Transform(c, Normalize(t).value), Apply(s, t.apply), m)
  {
    var a := IsEqual(LeafEquals("a", Current, v));
    var b := IsEqual(LeafEquals("b", Current, v));
    var t := Transformation(Some(Equals(LeafEquals("a", Current, v))), [Assignment("b", Set(w))], false);
    assert Normalize(t).Some? && Normalize(t).value.trigger == [[a]];
    assert "a"[0] != "b"[0];
    OverwrittenLeafStays(a, b, Normalize(t).value);
    var s := State(map["a" := v, "b" := v], map[]);
    assert Apply(s, t.apply) == Apply(s.(current := ApplyEffect(s.current, t.apply[0])), []);
    assert !LeafHolds(b, Apply(s, t.apply), m);
  }

  lemma OverwrittenLeafStays(a: Leaf, b: Leaf, alias: Normalized)
    requires a != b && alias.trigger == [[a]]
    ensures Matches([a, b], alias) && b in Transform([a, b], alias)
  {
    var c: Conjunction := [a, b];
    assert a in multiset(c);
    assert ContainsAll(c, alias.trigger[0]);
    TransformMultiset(c, alias);
    assert b in multiset(Transform(c, alias));
  }
}
