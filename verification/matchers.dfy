/**
 The `ExpectJS` constructor: it wraps a subject (`expression`) and fills two
 method tables, the chain object `prototype` and its `prototype.not`, with
 one closure per matcher name through `addMatcher`.
 */
module Matchers {
  import opened JsValues
  import opened Comparators

  datatype Matcher =
    | ToBe | ToBeDefined | ToBeUndefined | ToBeNull | ToBeTruthy | ToBeFalsy
    | ToEqual | ToMatch | ToBeLessThan | ToBeGreaterThan | ToBeCloseTo
    | ToContain | ToThrow

  const MatcherNames: set<string> := {
    "toBe", "toBeDefined", "toBeUndefined", "toBeNull", "toBeTruthy", "toBeFalsy",
    "toEqual", "toMatch", "toBeLessThan", "toBeGreaterThan", "toBeCloseTo",
    "toContain", "toThrow"
  }

  /** The property name under which a matcher is registered. */
  function Name(m: Matcher): (name: string)
    ensures name in MatcherNames
  {
    match m
    case ToBe => "toBe"
    case ToBeDefined => "toBeDefined"
    case ToBeUndefined => "toBeUndefined"
    case ToBeNull => "toBeNull"
    case ToBeTruthy => "toBeTruthy"
    case ToBeFalsy => "toBeFalsy"
    case ToEqual => "toEqual"
    case ToMatch => "toMatch"
    case ToBeLessThan => "toBeLessThan"
    case ToBeGreaterThan => "toBeGreaterThan"
    case ToBeCloseTo => "toBeCloseTo"
    case ToContain => "toContain"
    case ToThrow => "toThrow"
  }

  /** A closure installed by the constructor: the body of one matcher, the
      plain one or the one under `not`. */
  datatype Closure = Closure(matcher: Matcher, negated: bool)

  /** The arguments of a matcher call; an omitted argument is `undefined`. */
  datatype Args = Args(expected: Value, precision: Value)

  /** What the host decides during a call: the answer of `RegExp.test` on
      the subject, and whether the subject function throws when called. */
  datatype Host = Host(patternTests: bool, calleeThrows: bool)

  /** The matchers whose failure carries the subject and the matcher's
      argument unchanged. */
  const PayloadPreserving: set<Matcher> := {
    ToBe, ToEqual, ToMatch, ToBeLessThan, ToBeGreaterThan, ToBeCloseTo, ToContain, ToThrow
  }

  predicate Modelled(c: Closure, expression: Value) {
    c.matcher == ToContain ==> Searchable(expression)
  }

  /** Running a closure on the subject it closes over. */
  function Apply(c: Closure, expression: Value, args: Args, host: Host): (o: Outcome)
    requires Modelled(c, expression)
    ensures c.matcher != ToContain && !(c.matcher == ToMatch && args.expected.Null?) ==>
      o == ReturnsChain || o.AssertionFailure?
    ensures c.matcher == ToMatch && args.expected.Null? ==> o == HostException
    ensures c.matcher == ToContain ==> o != ReturnsChain
    ensures c.matcher in PayloadPreserving && o.AssertionFailure? ==>
      o == AssertionFailure(expression, args.expected)
  {
    var not := c.negated;
    match c.matcher
    case ToBe => IdentityComparison(expression, args.expected, not)
    // the plain toBeDefined compares with `not` set, its negation without
    case ToBeDefined => IdentityComparison(expression, Undefined, !not)
    case ToBeUndefined => IdentityComparison(expression, Undefined, not)
    case ToBeNull => IdentityComparison(expression, Null, not)
    case ToBeTruthy => IdentityComparison(Bool(Truthy(expression)), Bool(true), not)
    case ToBeFalsy => IdentityComparison(Bool(!Truthy(expression)), Bool(true), not)
    case ToEqual => DeepOutcome(expression, args.expected, not)
    case ToMatch => MatchComparison(expression, args.expected, host.patternTests, not)
    case ToBeLessThan => LessThanComparison(expression, args.expected, not)
    case ToBeGreaterThan => GreaterThanComparison(expression, args.expected, not)
    case ToBeCloseTo => PrecisionComparison(expression, args.expected, args.precision, not)
    case ToContain => RecursiveComparison(expression, args.expected, not)
    case ToThrow => ThrowComparison(expression, args.expected, host.calleeThrows, not)
  }

  /** `toBeDefined`, `toBeUndefined` and `toBeNull` and their negations:
      what each passes on, and that a failure carries the subject and the
      constant it was compared with. */
  lemma PresenceMatchers(s: Value, args: Args, host: Host)
    ensures Passed(Apply(Closure(ToBeDefined, false), s, args, host)) <==> s != Undefined
    ensures Passed(Apply(Closure(ToBeDefined, true), s, args, host)) <==> s == Undefined
    ensures Passed(Apply(Closure(ToBeUndefined, false), s, args, host)) <==> s == Undefined
    ensures Passed(Apply(Closure(ToBeUndefined, true), s, args, host)) <==> s != Undefined
    ensures Passed(Apply(Closure(ToBeNull, false), s, args, host)) <==> s == Null
    ensures Passed(Apply(Closure(ToBeNull, true), s, args, host)) <==> s != Null
    ensures forall negated: bool ::
      (!Passed(Apply(Closure(ToBeDefined, negated), s, args, host)) ==>
         Apply(Closure(ToBeDefined, negated), s, args, host) == AssertionFailure(s, Undefined)) &&
      (!Passed(Apply(Closure(ToBeUndefined, negated), s, args, host)) ==>
         Apply(Closure(ToBeUndefined, negated), s, args, host) == AssertionFailure(s, Undefined)) &&
      (!Passed(Apply(Closure(ToBeNull, negated), s, args, host)) ==>
         Apply(Closure(ToBeNull, negated), s, args, host) == AssertionFailure(s, Null))
  {
  }

  /** `toBeTruthy` and `toBeFalsy`: they compare the coerced boolean with
      `true`, so a failure carries that boolean, not the subject. */
  lemma TruthinessMatchers(s: Value, args: Args, host: Host)
    ensures Passed(Apply(Closure(ToBeTruthy, false), s, args, host)) <==> Truthy(s)
    ensures Passed(Apply(Closure(ToBeTruthy, true), s, args, host)) <==> !Truthy(s)
    ensures Passed(Apply(Closure(ToBeFalsy, false), s, args, host)) <==> !Truthy(s)
    ensures Passed(Apply(Closure(ToBeFalsy, true), s, args, host)) <==> Truthy(s)
    ensures forall negated: bool ::
      (!Passed(Apply(Closure(ToBeTruthy, negated), s, args, host)) ==>
         Apply(Closure(ToBeTruthy, negated), s, args, host) == AssertionFailure(Bool(Truthy(s)), Bool(true))) &&
      (!Passed(Apply(Closure(ToBeFalsy, negated), s, args, host)) ==>
         Apply(Closure(ToBeFalsy, negated), s, args, host) == AssertionFailure(Bool(!Truthy(s)), Bool(true)))
  {
  }

  /** The table the constructor fills: the plain closures, or the negated
      ones. */
  function Registry(negated: bool): map<string, Closure> {
    map[][
      "toBe" := Closure(ToBe, negated)][
      "toBeDefined" := Closure(ToBeDefined, negated)][
      "toBeUndefined" := Closure(ToBeUndefined, negated)][
      "toBeNull" := Closure(ToBeNull, negated)][
      "toBeTruthy" := Closure(ToBeTruthy, negated)][
      "toBeFalsy" := Closure(ToBeFalsy, negated)][
      "toEqual" := Closure(ToEqual, negated)][
      "toMatch" := Closure(ToMatch, negated)][
      "toBeLessThan" := Closure(ToBeLessThan, negated)][
      "toBeGreaterThan" := Closure(ToBeGreaterThan, negated)][
      "toBeCloseTo" := Closure(ToBeCloseTo, negated)][
      "toContain" := Closure(ToContain, negated)][
      "toThrow" := Closure(ToThrow, negated)]
  }

  /** After construction both tables hold the same thirteen names, and each
      name leads to its matcher's plain closure in one table and to its
      negated closure in the other. */
  lemma RegistryComplete()
    ensures Registry(false).Keys == MatcherNames && Registry(true).Keys == MatcherNames
    ensures forall m: Matcher, negated: bool :: Registry(negated)[Name(m)] == Closure(m, negated)
  {
    forall m: Matcher, negated: bool
      ensures Name(m) in Registry(negated) && Registry(negated)[Name(m)] == Closure(m, negated)
    {
      match m
      case ToBe =>
      case ToBeDefined =>
      case ToBeUndefined =>
      case ToBeNull =>
      case ToBeTruthy =>
      case ToBeFalsy =>
      case ToEqual =>
      case ToMatch =>
      case ToBeLessThan =>
      case ToBeGreaterThan =>
      case ToBeCloseTo =>
      case ToContain =>
      case ToThrow =>
    }
  }

  /** The chain object built for one subject. */
  class ExpectJS {
    const expression: Value
    var matchers: map<string, Closure>    // prototype[name]
    var negations: map<string, Closure>   // prototype.not[name]

    /** Every registered name is present in both tables: the constructor
        establishes it, `AddMatcher` keeps it, and `Call` relies on it to
        find a name under `not` exactly when it finds it plain. */
    predicate Mirrored()
      reads this
    {
      matchers.Keys == negations.Keys
    }

    function Table(negated: bool): map<string, Closure>
      reads this
    {
      if negated then negations else matchers
    }

    /** `addMatcher(name, matcherFunction, notMatcherFunction)`. */
    method AddMatcher(name: string, matcherFunction: Closure, notMatcherFunction: Closure)
      requires name != "not"
      modifies this
      ensures matchers == old(matchers)[name := matcherFunction]
      ensures negations == old(negations)[name := notMatcherFunction]
      ensures old(Mirrored()) ==> Mirrored()
    {
      matchers := matchers[name := matcherFunction];
      negations := negations[name := notMatcherFunction];
    }

    /** `ExpectJS(expression)`: the thirteen registrations, each pairing a
        matcher's plain closure with its negated one. */
    constructor (expression: Value)
      ensures this.expression == expression
      ensures matchers == Registry(false) && negations == Registry(true)
      ensures Mirrored()
    {
      this.expression := expression;
      matchers := map[];
      negations := map[];
      new;
      AddMatcher("toBe", Closure(ToBe, false), Closure(ToBe, true));
      AddMatcher("toBeDefined", Closure(ToBeDefined, false), Closure(ToBeDefined, true));
      AddMatcher("toBeUndefined", Closure(ToBeUndefined, false), Closure(ToBeUndefined, true));
      AddMatcher("toBeNull", Closure(ToBeNull, false), Closure(ToBeNull, true));
      AddMatcher("toBeTruthy", Closure(ToBeTruthy, false), Closure(ToBeTruthy, true));
      AddMatcher("toBeFalsy", Closure(ToBeFalsy, false), Closure(ToBeFalsy, true));
      AddMatcher("toEqual", Closure(ToEqual, false), Closure(ToEqual, true));
      AddMatcher("toMatch", Closure(ToMatch, false), Closure(ToMatch, true));
      AddMatcher("toBeLessThan", Closure(ToBeLessThan, false), Closure(ToBeLessThan, true));
      AddMatcher("toBeGreaterThan", Closure(ToBeGreaterThan, false), Closure(ToBeGreaterThan, true));
      AddMatcher("toBeCloseTo", Closure(ToBeCloseTo, false), Closure(ToBeCloseTo, true));
      AddMatcher("toContain", Closure(ToContain, false), Closure(ToContain, true));
      AddMatcher("toThrow", Closure(ToThrow, false), Closure(ToThrow, true));
      RegistryComplete();
    }

    /** `prototype[name](...)`, or `prototype.not[name](...)` when negated.
        A name with no closure is not a function, and calling it is a
        TypeError. The tables are only read, so repeating a call gives the
        same outcome. */
    method Call(name: string, negated: bool, args: Args, host: Host) returns (o: Outcome)
      requires name in Table(negated) ==> Modelled(Table(negated)[name], expression)
      ensures name !in Table(negated) ==> o == HostException
      ensures name in Table(negated) ==> o == Apply(Table(negated)[name], expression, args, host)
      ensures Mirrored() ==> (name in Table(negated) <==> name in Table(!negated))
    {
      var table := if negated then negations else matchers;
      if name !in table {
        return HostException;
      }
      var closure := table[name];
      if closure.matcher == ToEqual {
        o := DeepComparison(expression, args.expected, closure.negated);
      } else {
        o := Apply(closure, expression, args, host);
      }
    }
  }
}
