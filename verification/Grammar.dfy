/** The predicate language of the FML schema: JSON values, leaves, predicates, and
    what a predicate means in a state of camera settings. */
module Grammar {

  datatype Value =
    | Null
    | Bool(b: bool)
    | Number(n: real)
    | Text(s: string)
    | List(items: seq<Value>)
    | Record(fields: seq<(string, Value)>)

  datatype Scope = Current | Original

  datatype LeafEquals = LeafEquals(ref: string, scope: Scope, equals: Value)
  datatype LeafIn = LeafIn(ref: string, scope: Scope, values: seq<Value>)
  datatype LeafBetween = LeafBetween(ref: string, scope: Scope, min: Value, max: Value)
  datatype LeafLt = LeafLt(ref: string, scope: Scope, lt: Value)
  datatype LeafLte = LeafLte(ref: string, scope: Scope, lte: Value)
  datatype LeafGt = LeafGt(ref: string, scope: Scope, gt: Value)
  datatype LeafGte = LeafGte(ref: string, scope: Scope, gte: Value)
  datatype LeafPresent = LeafPresent(ref: string, scope: Scope, present: bool)

  datatype Predicate =
    | Constant(value: bool)
    | All(all: seq<Predicate>)
    | Any(any: seq<Predicate>)
    | Not(inner: Predicate)
    | Equals(equals: LeafEquals)
    | In(oneOf: LeafIn)
    | Between(between: LeafBetween)
    | LessThan(lt: LeafLt)
    | LessThanOrEqual(lte: LeafLte)
    | GreaterThan(gt: LeafGt)
    | GreaterThanOrEqual(gte: LeafGte)
    | Present(present: LeafPresent)

  /** The setting values a predicate reads; an absent key is an absent setting. */
  datatype State = State(current: map<string, Value>, original: map<string, Value>) {
    function At(scope: Scope): map<string, Value> {
      match scope
      case Current => current
      case Original => original
    }
  }

  /** A comparison a leaf applies to a setting that is present. */
  datatype Test =
    | EqualTo(v: Value)
    | OneOf(vs: seq<Value>)
    | Within(min: Value, max: Value)
    | Below(v: Value)
    | AtMost(v: Value)
    | Above(v: Value)
    | AtLeast(v: Value)

  /** How the generated code compares the value of a setting. It differs by setting kind (integers, floats
      up to an epsilon, enums, strings), so every statement here is made for all meanings. */
  type Meaning = (string, Test, Value) -> bool

  /** A comparison with an absent setting is false, as in `is_some_and`. */
  predicate Passes(s: State, m: Meaning, ref: string, scope: Scope, test: Test) {
    ref in s.At(scope) && m(ref, test, s.At(scope)[ref])
  }

  predicate HasPresence(s: State, l: LeafPresent) {
    (l.ref in s.At(l.scope)) == l.present
  }

  predicate Holds(p: Predicate, s: State, m: Meaning)
    decreases p
  {
    match p
    case Constant(b) => b
    case All(all) => forall c | c in all :: Holds(c, s, m)
    case Any(any) => exists c | c in any :: Holds(c, s, m)
    case Not(inner) => !Holds(inner, s, m)
    case Equals(l) => Passes(s, m, l.ref, l.scope, EqualTo(l.equals))
    case In(l) => Passes(s, m, l.ref, l.scope, OneOf(l.values))
    case Between(l) => Passes(s, m, l.ref, l.scope, Within(l.min, l.max))
    case LessThan(l) => Passes(s, m, l.ref, l.scope, Below(l.lt))
    case LessThanOrEqual(l) => Passes(s, m, l.ref, l.scope, AtMost(l.lte))
    case GreaterThan(l) => Passes(s, m, l.ref, l.scope, Above(l.gt))
    case GreaterThanOrEqual(l) => Passes(s, m, l.ref, l.scope, AtLeast(l.gte))
    case Present(l) => HasPresence(s, l)
  }

  /** The settings a predicate mentions. */
  function RefsOf(p: Predicate): set<string>
    decreases p
  {
    match p
    case Constant(_) => {}
    case All(all) => RefsOfAll(all)
    case Any(any) => RefsOfAll(any)
    case Not(inner) => RefsOf(inner)
    case Equals(l) => {l.ref}
    case In(l) => {l.ref}
    case Between(l) => {l.ref}
    case LessThan(l) => {l.ref}
    case LessThanOrEqual(l) => {l.ref}
    case GreaterThan(l) => {l.ref}
    case GreaterThanOrEqual(l) => {l.ref}
    case Present(l) => {l.ref}
  }

  function RefsOfAll(ps: seq<Predicate>): set<string>
    decreases ps
  {
    if ps == [] then {} else RefsOf(ps[0]) + RefsOfAll(ps[1..])
  }

  lemma {:induction false} RefsOfMember(c: Predicate, ps: seq<Predicate>)
    requires c in ps
    ensures RefsOf(c) <= RefsOfAll(ps)
  {
    if c != ps[0] { RefsOfMember(c, ps[1..]); }
  }

  /** Two states that agree on the settings a predicate mentions give it the same truth. */
  lemma {:induction false} OnlyRefsMatter(p: Predicate, s: State, t: State, m: Meaning)
    requires forall r | r in RefsOf(p) :: EqualAt(s, t, r)
    ensures Holds(p, s, m) == Holds(p, t, m)
    decreases p
  {
    match p
    case All(all) =>
      forall c | c in all ensures Holds(c, s, m) == Holds(c, t, m) { RefsOfMember(c, all); OnlyRefsMatter(c, s, t, m); }
    case Any(any) =>
      forall c | c in any ensures Holds(c, s, m) == Holds(c, t, m) { RefsOfMember(c, any); OnlyRefsMatter(c, s, t, m); }
    case Not(inner) => OnlyRefsMatter(inner, s, t, m);
    case Equals(l) => assert EqualAt(s, t, l.ref);
    case In(l) => assert EqualAt(s, t, l.ref);
    case Between(l) => assert EqualAt(s, t, l.ref);
    case LessThan(l) => assert EqualAt(s, t, l.ref);
    case LessThanOrEqual(l) => assert EqualAt(s, t, l.ref);
    case GreaterThan(l) => assert EqualAt(s, t, l.ref);
    case GreaterThanOrEqual(l) => assert EqualAt(s, t, l.ref);
    case Present(l) => assert EqualAt(s, t, l.ref);
    case Constant(_) =>
  }

  predicate EqualOn(a: map<string, Value>, b: map<string, Value>, r: string) {
    (r in a <==> r in b) && (r in a ==> a[r] == b[r])
  }

  predicate EqualAt(s: State, t: State, r: string) {
    EqualOn(s.current, t.current, r) && EqualOn(s.original, t.original, r)
  }

  /** `refs` inserts into the caller's set while it recurses. */
  method CollectRefs(p: Predicate, out: set<string>) returns (collected: set<string>)
    ensures collected == out + RefsOf(p)
    decreases p
  {
    collected := out;
    match p {
      case All(all) =>
        for i := 0 to |all|
          invariant collected + RefsOfAll(all[i..]) == out + RefsOfAll(all)
        {
          collected := CollectRefs(all[i], collected);
        }
      case Any(any) =>
        for i := 0 to |any|
          invariant collected + RefsOfAll(any[i..]) == out + RefsOfAll(any)
        {
          collected := CollectRefs(any[i], collected);
        }
      case Not(inner) => collected := CollectRefs(inner, out);
      case Equals(l) => collected := out + {l.ref};
      case In(l) => collected := out + {l.ref};
      case Between(l) => collected := out + {l.ref};
      case LessThan(l) => collected := out + {l.ref};
      case LessThanOrEqual(l) => collected := out + {l.ref};
      case GreaterThan(l) => collected := out + {l.ref};
      case GreaterThanOrEqual(l) => collected := out + {l.ref};
      case Present(l) => collected := out + {l.ref};
      case Constant(_) =>
        assert RefsOf(p) == {};
    }
  }
}
