/**
 The comparators behind the matchers. Each decides, for the subject
 (`actual`), the matcher's argument (`expected`) and the negation flag
 `not`, whether the assertion passes. A pass returns the chain object (or,
 for membership, nothing); a failure is the AssertionError thrown by
 `expect.toFail`, of which the model keeps the `actual` and `expected`
 fields.
 */
module Comparators {
  import opened JsValues

  datatype Outcome =
    | ReturnsChain                                  // `return prototype`
    | ReturnsUndefined                              // a pass that returns nothing
    | AssertionFailure(actual: Value, expected: Value)  // `expect.toFail(message, actual, expected)`
    | HostException                                 // a TypeError or RangeError raised by the host

  predicate Passed(o: Outcome) {
    o.ReturnsChain? || o.ReturnsUndefined?
  }

  // ---------------------------------------------------------------- identity

  /** `toBe` and the matchers derived from it: `===`, or `!==` when negated. */
  function IdentityComparison(actual: Value, expected: Value, not: bool): (o: Outcome)
    ensures Passed(o) <==> (if not then !StrictEq(actual, expected) else StrictEq(actual, expected))
    ensures Passed(o) ==> o == ReturnsChain
    ensures !Passed(o) ==> o == AssertionFailure(actual, expected)
  {
    if (not && !StrictEq(actual, expected)) || (!not && StrictEq(actual, expected)) then
      ReturnsChain
    else
      AssertionFailure(actual, expected)
  }

  // ---------------------------------------------------------------- ordering

  /** `actual < expected`, or `actual > expected` when negated. */
  function LessThanComparison(actual: Value, expected: Value, not: bool): (o: Outcome)
    ensures Passed(o) <==> (if not then JsLess(expected, actual) else JsLess(actual, expected))
    ensures Passed(o) ==> o == ReturnsChain
    ensures !Passed(o) ==> o == AssertionFailure(actual, expected)
  {
    if (not && JsLess(expected, actual)) || (!not && JsLess(actual, expected)) then
      ReturnsChain
    else
      AssertionFailure(actual, expected)
  }

  /** `actual > expected`, or `actual < expected` when negated. */
  function GreaterThanComparison(actual: Value, expected: Value, not: bool): (o: Outcome)
    ensures Passed(o) <==> (if not then JsLess(actual, expected) else JsLess(expected, actual))
    ensures Passed(o) ==> o == ReturnsChain
    ensures !Passed(o) ==> o == AssertionFailure(actual, expected)
  {
    if (not && JsLess(actual, expected)) || (!not && JsLess(expected, actual)) then
      ReturnsChain
    else
      AssertionFailure(actual, expected)
  }

  /** Identical operands are neither less nor greater than each other, so
      both comparators fail on them whatever the negation flag. */
  lemma OrderingFailsOnIdentical(actual: Value, expected: Value, not: bool)
    requires StrictEq(actual, expected)
    ensures LessThanComparison(actual, expected, not) == AssertionFailure(actual, expected)
    ensures GreaterThanComparison(actual, expected, not) == AssertionFailure(actual, expected)
  {
    if !IsReference(actual) {
      JsLessIrreflexive(actual);
    }
  }

  /** The negated ordering is stricter than the complement: whenever
      `not.toBeLessThan` passes, `toBeLessThan` fails (and likewise for
      greater-than). */
  lemma NegatedOrderingImpliesFailure(actual: Value, expected: Value)
    ensures Passed(LessThanComparison(actual, expected, true)) ==>
              !Passed(LessThanComparison(actual, expected, false))
    ensures Passed(GreaterThanComparison(actual, expected, true)) ==>
              !Passed(GreaterThanComparison(actual, expected, false))
  {
    JsLessAsymmetric(actual, expected);
  }

  /** Greater-than is less-than with the operands swapped. */
  lemma GreaterThanMirrorsLessThan(actual: Value, expected: Value, not: bool)
    ensures Passed(GreaterThanComparison(actual, expected, not)) ==
            Passed(LessThanComparison(expected, actual, not))
  {
  }

  // --------------------------------------------------------------- tolerance

  function Pow10(n: nat): (r: nat)
    ensures r >= 1
  {
    if n == 0 then 1 else 10 * Pow10(n - 1)
  }

  /** `d < Math.pow(10, -q) / 2`, in exact arithmetic. */
  predicate WithinTolerance(d: nat, q: int) {
    if q >= 0 then 2 * d * Pow10(q) < 1 else 2 * d < Pow10(-q)
  }

  /** `d > Math.pow(10, -q) / 2`, in exact arithmetic. */
  predicate BeyondTolerance(d: nat, q: int) {
    if q >= 0 then 2 * d * Pow10(q) > 1 else 2 * d > Pow10(-q)
  }

  function Abs(x: int): nat {
    if x < 0 then -x else x
  }

  /** `toBeCloseTo`: an undefined precision becomes 2; the difference must be
      below half of `10^-precision` (above it when negated). A NaN operand
      makes every comparison false, so the assertion fails. */
  function PrecisionComparison(actual: Value, expected: Value, precision: Value, not: bool): (o: Outcome)
    ensures Passed(o) ==> o == ReturnsChain
    ensures !Passed(o) ==> o == AssertionFailure(actual, expected)
    ensures Passed(o) ==> ToNumber(actual).Some? && ToNumber(expected).Some?
  {
    var p := if StrictEq(precision, Undefined) then Num(2) else precision;
    match (ToNumber(actual), ToNumber(expected), ToNumber(p))
    case (Some(x), Some(y), Some(q)) =>
      var difference := Abs(y - x);
      if (not && BeyondTolerance(difference, q)) || (!not && WithinTolerance(difference, q)) then
        ReturnsChain
      else
        AssertionFailure(actual, expected)
    case _ => AssertionFailure(actual, expected)
  }

  lemma ScaledAtLeastTwo(d: nat, p: nat)
    requires d >= 1 && p >= 1
    ensures 2 * d * p >= 2
  {
    assert d * p == (d - 1) * p + p;
  }

  lemma ToleranceOfNonNegativePrecision(d: nat, q: int)
    requires q >= 0
    ensures WithinTolerance(d, q) <==> d == 0
    ensures BeyondTolerance(d, q) <==> d > 0
  {
    var p := Pow10(q);
    assert WithinTolerance(d, q) == (2 * d * p < 1);
    assert BeyondTolerance(d, q) == (2 * d * p > 1);
    if d > 0 {
      ScaledAtLeastTwo(d, p);
    }
  }

  /** With the default precision, integers are close exactly when they are
      equal, and the negated matcher passes exactly when they differ. */
  lemma DefaultPrecisionOnIntegers(x: int, y: int)
    ensures Passed(PrecisionComparison(Num(x), Num(y), Undefined, false)) <==> x == y
    ensures Passed(PrecisionComparison(Num(x), Num(y), Undefined, true)) <==> x != y
  {
    ToleranceOfNonNegativePrecision(Abs(y - x), 2);
  }

  /** A difference of exactly half of `10^-precision` fails under both
      polarities: the comparisons are strict. */
  lemma ToleranceBoundaryFailsBoth(x: int, y: int, q: int, not: bool)
    requires q < 0 && 2 * Abs(y - x) == Pow10(-q)
    ensures PrecisionComparison(Num(x), Num(y), Num(q), not) == AssertionFailure(Num(x), Num(y))
  {
  }

  // ------------------------------------------------------- structural equality

  /** The per-key test of the deep comparison's loop: whether the key makes
      the assertion fail. */
  predicate KeyFails(actual: Value, expected: Value, key: string, not: bool)
    requires !Nullish(actual) && !Nullish(expected)
  {
    (not && StrictEq(Get(actual, key), Get(expected, key))) ||
    (!not && !StrictEq(Get(actual, key), Get(expected, key)))
  }

  /** Some enumerated key of `actual` fails the per-key test. */
  predicate SomeKeyFails(actual: Value, expected: Value, not: bool) {
    var keys := ForInKeys(actual);
    exists j :: 0 <= j < |keys| && !Nullish(actual) && !Nullish(expected) &&
      KeyFails(actual, expected, keys[j], not)
  }

  /** The outcome of `deepComparison`, branch by branch. */
  function DeepOutcome(actual: Value, expected: Value, not: bool): Outcome {
    if (not && !StrictEq(actual, expected)) || (!not && StrictEq(actual, expected)) then
      ReturnsChain
    else if (not && TypeofIsObject(actual) && !TypeofIsObject(expected)) ||
            (!not && !TypeofIsObject(actual) && !TypeofIsObject(expected)) then
      AssertionFailure(actual, expected)
    else if (not && |ForInKeys(actual)| == |ForInKeys(expected)|) ||
            (!not && |ForInKeys(actual)| != |ForInKeys(expected)|) then
      AssertionFailure(actual, expected)
    else if SomeKeyFails(actual, expected, not) then
      AssertionFailure(actual, expected)
    else
      ReturnsChain
  }

  /** `for (var k in v) { keys.push(k); }`, starting from an empty list. */
  method CollectKeys(v: Value) returns (keys: seq<string>)
    ensures keys == ForInKeys(v)
  {
    var enumerated := ForInKeys(v);
    keys := [];
    for i := 0 to |enumerated|
      invariant keys == enumerated[..i]
    {
      keys := keys + [enumerated[i]];
    }
  }

  /** Once the identity and key-count branches have not decided, a subject
      with keys and its counterpart are both readable. */
  lemma KeysReadable(actual: Value, expected: Value, not: bool)
    requires not ==> StrictEq(actual, expected)
    requires !not ==> |ForInKeys(actual)| == |ForInKeys(expected)|
    requires |ForInKeys(actual)| > 0
    ensures !Nullish(actual) && !Nullish(expected)
  {
  }

  /** `toEqual`: identity first, then the type test, then the enumerated keys
      are collected into two lists whose lengths are compared, and the
      values under each key of `actual` are compared with `===`. No property
      is ever read from `undefined` or `null`. */
  method DeepComparison(actual: Value, expected: Value, not: bool) returns (o: Outcome)
    ensures o == DeepOutcome(actual, expected, not)
  {
    if (not && !StrictEq(actual, expected)) || (!not && StrictEq(actual, expected)) {
      return ReturnsChain;
    } else if (not && TypeofIsObject(actual) && !TypeofIsObject(expected)) ||
              (!not && !TypeofIsObject(actual) && !TypeofIsObject(expected)) {
      return AssertionFailure(actual, expected);
    }
    var actualKeys := CollectKeys(actual);
    var expectedKeys := CollectKeys(expected);
    if (not && |actualKeys| == |expectedKeys|) || (!not && |actualKeys| != |expectedKeys|) {
      return AssertionFailure(actual, expected);
    }
    if |actualKeys| > 0 {
      KeysReadable(actual, expected, not);
    }
    var index := 0;
    while index < |actualKeys|
      invariant 0 <= index <= |actualKeys|
      invariant |actualKeys| > 0 ==> !Nullish(actual) && !Nullish(expected)
      invariant forall j :: 0 <= j < index ==>
        !Nullish(actual) && !Nullish(expected) && !KeyFails(actual, expected, actualKeys[j], not)
    {
      var key := actualKeys[index];
      assert KeyFails(actual, expected, key, not) <==>
        ((not && StrictEq(Get(actual, key), Get(expected, key))) ||
         (!not && !StrictEq(Get(actual, key), Get(expected, key))));
      if ((not && StrictEq(Get(actual, key), Get(expected, key))) ||
          (!not && !StrictEq(Get(actual, key), Get(expected, key)))) {
        return AssertionFailure(actual, expected);
      }
      index := index + 1;
    }
    return ReturnsChain;
  }

  /** Two values have the same enumerated key count, and every key of the
      first reads `===` values from both. */
  predicate ShallowEqual(actual: Value, expected: Value) {
    var keys := ForInKeys(actual);
    |keys| == |ForInKeys(expected)| &&
    forall j :: 0 <= j < |keys| ==>
      !Nullish(actual) && !Nullish(expected) && StrictEq(Get(actual, keys[j]), Get(expected, keys[j]))
  }

  /** Positive `toEqual` passes exactly for identical values and for pairs,
      at least one of them object-typed, that are shallowly equal; it never
      passes for two distinct non-objects. */
  lemma ToEqualPositive(actual: Value, expected: Value)
    ensures Passed(DeepOutcome(actual, expected, false)) <==>
      StrictEq(actual, expected) ||
      ((TypeofIsObject(actual) || TypeofIsObject(expected)) && ShallowEqual(actual, expected))
    ensures !Passed(DeepOutcome(actual, expected, false)) ==>
      DeepOutcome(actual, expected, false) == AssertionFailure(actual, expected)
  {
    if !StrictEq(actual, expected) && (TypeofIsObject(actual) || TypeofIsObject(expected)) {
      var keys := ForInKeys(actual);
      if |keys| == |ForInKeys(expected)| && !SomeKeyFails(actual, expected, false) {
        forall j | 0 <= j < |keys|
          ensures !Nullish(actual) && !Nullish(expected) && StrictEq(Get(actual, keys[j]), Get(expected, keys[j]))
        {
          assert !Nullish(actual);
          assert ForInKeys(expected) != [];
        }
      }
    }
  }

  /** Negated `toEqual` is `!==`: on a consistent heap it passes exactly for
      values that are not identical. The type test's negated case is
      unreachable, and identical values always have equal key counts. */
  lemma ToEqualNegated(actual: Value, expected: Value)
    requires Coherent(actual, expected)
    ensures Passed(DeepOutcome(actual, expected, true)) <==> !StrictEq(actual, expected)
    ensures !Passed(DeepOutcome(actual, expected, true)) ==>
      DeepOutcome(actual, expected, true) == AssertionFailure(actual, expected)
  {
  }

  /** The two polarities are not complements: `{}` against `5` passes both
      `toEqual` (neither has an enumerable key) and `not.toEqual`. */
  lemma ToEqualNotDual()
    ensures Passed(DeepOutcome(Obj(1, [], map[]), Num(5), false))
    ensures Passed(DeepOutcome(Obj(1, [], map[]), Num(5), true))
  {
  }

  /** Distinct arrays with `===` elements at every index are `toEqual`. */
  lemma ToEqualArrays(a: nat, b: nat, xs: seq<Value>, ys: seq<Value>)
    requires |xs| == |ys|
    requires forall i :: 0 <= i < |xs| ==> StrictEq(xs[i], ys[i])
    ensures DeepOutcome(Arr(a, xs), Arr(b, ys), false) == ReturnsChain
  {
    var keys := ForInKeys(Arr(a, xs));
    forall j | 0 <= j < |keys|
      ensures !KeyFails(Arr(a, xs), Arr(b, ys), keys[j], false)
    {
      GetArrayIndex(Arr(a, xs), j);
      GetArrayIndex(Arr(b, ys), j);
    }
  }

  // --------------------------------------------------------------- membership

  /** Subjects whose `length` and indexed elements the model reads: arrays,
      strings, and `undefined`, `null`, numbers and booleans. */
  predicate Searchable(v: Value) {
    !v.Obj? && !v.Fn?
  }

  /** The elements read as `array[index]` below `array.length`: none for a
      value without a length. */
  function Elements(v: Value): (r: seq<Value>)
    requires Searchable(v) && !Nullish(v)
    ensures forall i :: 0 <= i < |r| ==> r[i] == Get(v, IndexName(i))
    ensures r != [] ==> Get(v, "length") == Num(|r|)
    ensures v.Bool? || v.Num? ==> r == [] && Get(v, "length") == Undefined
  {
    var r := match v
      case Arr(_, elems) => elems
      case Str(s) => seq(|s|, i requires 0 <= i < |s| => Str([s[i]]))
      case _ => [];
    assert forall i :: 0 <= i < |r| ==> r[i] == Get(v, IndexName(i)) by {
      forall i | 0 <= i < |r| ensures r[i] == Get(v, IndexName(i)) {
        GetArrayIndex(v, i);
      }
    }
    r
  }

  /** The inner `recursion(index)` over a non-empty element list; the last
      index is `|elems| - 1`. */
  function Scan(arrayValue: Value, elems: seq<Value>, expected: Value, not: bool, index: nat): (o: Outcome)
    requires index < |elems|
    ensures o == ReturnsChain || o == AssertionFailure(arrayValue, expected)
    decreases |elems| - index
  {
    var value := elems[index];
    var atLast := index == |elems| - 1;
    if (!not && atLast) || (not && StrictEq(value, expected)) then
      AssertionFailure(arrayValue, expected)
    else if (!not && StrictEq(value, expected)) || (not && atLast) then
      ReturnsChain
    else
      Scan(arrayValue, elems, expected, not, index + 1)
  }

  lemma {:induction false} ScanPositive(arrayValue: Value, elems: seq<Value>, expected: Value, index: nat)
    requires index < |elems|
    ensures Scan(arrayValue, elems, expected, false, index) ==
      if exists i :: index <= i < |elems| - 1 && StrictEq(elems[i], expected)
      then ReturnsChain else AssertionFailure(arrayValue, expected)
    decreases |elems| - index
  {
    if index < |elems| - 1 && !StrictEq(elems[index], expected) {
      ScanPositive(arrayValue, elems, expected, index + 1);
    }
  }

  lemma {:induction false} ScanNegated(arrayValue: Value, elems: seq<Value>, expected: Value, index: nat)
    requires index < |elems|
    ensures Scan(arrayValue, elems, expected, true, index) ==
      if exists i :: index <= i < |elems| && StrictEq(elems[i], expected)
      then AssertionFailure(arrayValue, expected) else ReturnsChain
    decreases |elems| - index
  {
    if index < |elems| - 1 && !StrictEq(elems[index], expected) {
      ScanNegated(arrayValue, elems, expected, index + 1);
    }
  }

  /** `recursiveComparison`, behind `toContain`. Reading `length` of
      `undefined` or `null` is a TypeError. Without elements the last index
      is never reached: reading past the end gives `undefined`, so the scan
      decides at index 0 when `expected` is `undefined` and otherwise
      recurses until the host's stack overflows. The inner pass value is
      dropped, so a pass never returns the chain. */
  function RecursiveComparison(arrayValue: Value, expected: Value, not: bool): (o: Outcome)
    requires Searchable(arrayValue)
    ensures o != ReturnsChain
    ensures o.AssertionFailure? ==> o == AssertionFailure(arrayValue, expected)
  {
    if Nullish(arrayValue) then HostException
    else
      var elems := Elements(arrayValue);
      if elems == [] then
        if StrictEq(Undefined, expected) then
          (if not then AssertionFailure(arrayValue, expected) else ReturnsUndefined)
        else HostException
      else
        var inner := Scan(arrayValue, elems, expected, not, 0);
        if inner.AssertionFailure? then inner else ReturnsUndefined
  }

  /** Positive `toContain` on a non-empty list passes exactly when `expected`
      is `===` to an element before the last one. */
  lemma ToContainPositive(arrayValue: Value, expected: Value)
    requires Searchable(arrayValue) && !Nullish(arrayValue) && Elements(arrayValue) != []
    ensures Passed(RecursiveComparison(arrayValue, expected, false)) <==>
      exists i :: 0 <= i < |Elements(arrayValue)| - 1 && StrictEq(Elements(arrayValue)[i], expected)
  {
    ScanPositive(arrayValue, Elements(arrayValue), expected, 0);
  }

  /** Negated `toContain` on a non-empty list passes exactly when no element
      is `===` to `expected`. */
  lemma ToContainNegated(arrayValue: Value, expected: Value)
    requires Searchable(arrayValue) && !Nullish(arrayValue) && Elements(arrayValue) != []
    ensures Passed(RecursiveComparison(arrayValue, expected, true)) <==>
      forall i :: 0 <= i < |Elements(arrayValue)| ==> !StrictEq(Elements(arrayValue)[i], expected)
  {
    ScanNegated(arrayValue, Elements(arrayValue), expected, 0);
  }

  /** A match only in the last position is missed by `toContain`, and still
      found by `not.toContain`: both polarities fail. */
  lemma ToContainMissesLast(a: nat, xs: seq<Value>, expected: Value)
    requires xs != [] && StrictEq(xs[|xs| - 1], expected)
    requires forall i :: 0 <= i < |xs| - 1 ==> !StrictEq(xs[i], expected)
    ensures RecursiveComparison(Arr(a, xs), expected, false) == AssertionFailure(Arr(a, xs), expected)
    ensures RecursiveComparison(Arr(a, xs), expected, true) == AssertionFailure(Arr(a, xs), expected)
  {
    ScanPositive(Arr(a, xs), xs, expected, 0);
    ScanNegated(Arr(a, xs), xs, expected, 0);
  }

  // ----------------------------------------------------------- pattern match

  /** `matchComparison`: `patternTests` is what the host's `RegExp.test`
      answers for `actual`. The failure carries the original `expected`, not
      the pattern built from it. */
  function MatchComparison(actual: Value, expected: Value, patternTests: bool, not: bool): (o: Outcome)
    ensures expected.Null? ==> o == HostException
    ensures !expected.Null? ==> (Passed(o) <==> patternTests == !not)
    ensures Passed(o) ==> o == ReturnsChain
    ensures !Passed(o) && !expected.Null? ==> o == AssertionFailure(actual, expected)
  {
    // `typeof null === "object"`, so the test for a ready-made pattern reads
    // `null.test`, a TypeError
    if expected.Null? then HostException
    else if patternTests == !not then ReturnsChain
    else AssertionFailure(actual, expected)
  }

  // -------------------------------------------------------- exception capture

  /** Whether `expression()` throws: calling a non-function is a TypeError;
      a function's own behaviour is `calleeThrows`. */
  predicate InvocationThrows(expression: Value, calleeThrows: bool)
    ensures !expression.Fn? ==> InvocationThrows(expression, calleeThrows)
    ensures expression.Fn? ==> (InvocationThrows(expression, calleeThrows) <==> calleeThrows)
  {
    !expression.Fn? || calleeThrows
  }

  /** The two `toThrow` closures: the positive one passes when the call
      throws, the negated one when it returns. Either failure carries the
      expression itself and the matcher's argument. */
  function ThrowComparison(expression: Value, expected: Value, calleeThrows: bool, not: bool): (o: Outcome)
    ensures Passed(o) <==> InvocationThrows(expression, calleeThrows) != not
    ensures Passed(o) ==> o == ReturnsChain
    ensures !Passed(o) ==> o == AssertionFailure(expression, expected)
  {
    if !not then
      if InvocationThrows(expression, calleeThrows) then ReturnsChain
      else AssertionFailure(expression, expected)
    else
      if InvocationThrows(expression, calleeThrows) then AssertionFailure(expression, expected)
      else ReturnsChain
  }

  /** Any subject that is not a function passes `toThrow` and fails
      `not.toThrow`, since calling it throws a TypeError. */
  lemma ToThrowOnNonFunction(expression: Value, expected: Value, calleeThrows: bool)
    requires !expression.Fn?
    ensures ThrowComparison(expression, expected, calleeThrows, false) == ReturnsChain
    ensures ThrowComparison(expression, expected, calleeThrows, true) == AssertionFailure(expression, expected)
  {
  }
}
