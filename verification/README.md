# ExpectJS assertion engine, modelled in Dafny

ExpectJS wraps a subject value and returns a chain object. The chain has
thirteen matchers (`toBe`, `toBeDefined`, `toBeUndefined`, `toBeNull`,
`toBeTruthy`, `toBeFalsy`, `toEqual`, `toMatch`, `toBeLessThan`,
`toBeGreaterThan`, `toBeCloseTo`, `toContain`, `toThrow`). It also has a
`not` object that holds the negated form of each one. A matcher hands the
subject, its argument and a negation flag to a comparator. The comparator
either returns the chain or throws an AssertionError through
`expect.toFail`. That error carries `actual` and `expected`.

The project has three modules:

- `JsValues` (js_values.dfy) models the JavaScript values the engine looks
  at: `undefined`, `null`, booleans, numbers (as integers), strings,
  functions, objects and arrays. Objects, arrays and functions carry a heap
  address, and `===` (`StrictEq`) compares only that address. The module
  also models `typeof`, the `!!x` coercion, numeric conversion and `<` on
  numbers and strings. It gives the keys that `for...in` enumerates, with
  arrays and strings enumerating their decimal index names. It models
  property reads `v[key]`, which require a receiver other than
  `undefined`/`null`.
- `Comparators` (comparators.dfy) holds one member per comparator. A call
  ends in one of four outcomes:
  - `ReturnsChain`: the comparator returned the chain.
  - `ReturnsUndefined`: `toContain` passed, which returns nothing.
  - `AssertionFailure(actual, expected)`: the error thrown by `toFail`.
  - `HostException`: a TypeError or RangeError raised by the JavaScript
    host itself.

  `deepComparison` collects its keys with push loops and walks them with
  an index loop that exits early. It is modelled as a method, proved equal
  to the branch-by-branch function `DeepOutcome`.
- `Matchers` (matchers.dfy) holds the class `ExpectJS`. Its constant
  `expression` is the subject. Its two maps, `matchers` (`prototype`) and
  `negations` (`prototype.not`), are filled by `AddMatcher` from the
  constructor. `Apply` runs a registered closure, and `Call` invokes a
  matcher by name. Calling a name that is not registered is a TypeError.
  `Call` only reads the tables, so repeating a call gives the same outcome.

Two behaviours of the host are inputs to `Call` (the `Host` record). One is
the answer of `RegExp.test` for `toMatch`. The other is whether the subject
function throws when `toThrow` calls it. Calling a subject that is not a
function always throws a TypeError, so `toThrow` passes on it.

Behaviours of the code that its own comments do not suggest:

- Negated `toEqual` is not the inverse of the positive one, although the
  comment at expect.js:133 says only that the comparison is negated when
  `not` is true. Negated `toEqual` passes for every pair of values that are
  not `===` (`ToEqualNegated`). Its type test can only fail after the first
  branch has already decided. So `expect({a:1}).not.toEqual(1)` passes, and
  so does `expect({}).toEqual(5)` (`ToEqualNotDual`), because neither side
  has an enumerable key.
- The comment at expect.js:376 says `toContain` passes if the expected
  value is found. The positive scan, however, tests for the last index
  before it tests for a match. A match only in the last position therefore
  fails (`ToContainMissesLast`). `toContain` never returns the chain
  (`RecursiveComparison`).
- `toMatch(null)` raises a TypeError. `typeof null` is `"object"`, so the
  test for a ready-made pattern reads `null.test` (expect.js:226).

## Model

| member | source | states |
|---|---|---|
| `JsValues.StrictEq` | expect.js:72-73 | every value is `===` itself; a primitive is `===` only to an equal value; a reference is never `===` a primitive; references compare by address |
| `JsValues.Truthy` | expect.js:321 | `!!v` is false exactly for `undefined`, `null`, `false`, `0` and `""` |
| `JsValues.JsLess` | expect.js:86-87 | on numbers it is integer `<`; it is false when either side is `undefined` (NaN) or a reference |
| `JsValues.ForInKeys` | expect.js:155-160 | `undefined`, `null`, booleans, numbers and functions enumerate nothing; an array enumerates one key per element and a string one per character |
| `JsValues.Get` | expect.js:173 | an object gives its own property or `undefined`; arrays and strings give their `length`; booleans, numbers and functions give `undefined`; never read from `undefined` or `null` |
| `JsValues.TypeofIsObject` | expect.js:142-147 | `typeof v === "object"` holds exactly for `null`, objects and arrays, so `null` counts as an object in the type test |
| `JsValues.JsLessIrreflexive` | expect.js:86-87 | no value is `<` itself, the fact behind both ordering comparators failing on equal operands |
| `JsValues.JsLessAsymmetric` | expect.js:86-87 | `a < b` and `b < a` never both hold |
| `JsValues.IndexNameRoundTrip` | expect.js:155-161 | the decimal key `for...in` yields for an array index parses back to that index |
| `JsValues.GetArrayIndex` | expect.js:172-173 | reading an array under its i-th enumerated key gives its i-th element |
| `Comparators.IdentityComparison` | expect.js:71-80 | passes iff `actual === expected` (iff `!==` when negated); a pass returns the chain; a failure carries exactly `actual` and `expected` |
| `Comparators.LessThanComparison` | expect.js:85-94 | passes iff `actual < expected`, or iff `actual > expected` when negated; a failure carries `actual` and `expected` |
| `Comparators.GreaterThanComparison` | expect.js:99-108 | passes iff `actual > expected`, or iff `actual < expected` when negated; a failure carries `actual` and `expected` |
| `Comparators.OrderingFailsOnIdentical` | expect.js:85-108 | identical operands fail both ordering comparators under both polarities |
| `Comparators.NegatedOrderingImpliesFailure` | expect.js:85-108 | whenever a negated ordering matcher passes, the positive one fails |
| `Comparators.GreaterThanMirrorsLessThan` | expect.js:85-108 | greater-than on `(a, e)` passes exactly when less-than on `(e, a)` passes, for either polarity |
| `Comparators.PrecisionComparison` | expect.js:113-130 | a pass returns the chain and needs numeric operands; a failure carries `actual` and `expected` |
| `Comparators.ToleranceOfNonNegativePrecision` | expect.js:119-123 | for a precision of 0 or more, an integer difference is within tolerance iff it is 0 and beyond it iff it is positive |
| `Comparators.DefaultPrecisionOnIntegers` | expect.js:114-123 | with an undefined precision (2), `toBeCloseTo` on integers passes iff they are equal, and the negation passes iff they differ |
| `Comparators.ToleranceBoundaryFailsBoth` | expect.js:119-123 | a difference of exactly half of `10^-precision` fails under both polarities |
| `Comparators.CollectKeys` | expect.js:154-161 | the push loop over `for...in` produces exactly the enumerated keys, in order |
| `Comparators.DeepComparison` | expect.js:135-185 | the identity, type, key-count and per-key branches, with the early-exit key loop, give exactly `DeepOutcome`; no property is read from `undefined` or `null` |
| `Comparators.ToEqualPositive` | expect.js:135-183 | positive `toEqual` passes iff the values are identical, or at least one is object-typed and both have equal key counts with `===` values under every key of `actual`; otherwise it fails with `actual` and `expected` |
| `Comparators.ToEqualNegated` | expect.js:137-179 | on a consistent heap, negated `toEqual` passes iff `actual !== expected`; otherwise it fails with `actual` and `expected` |
| `Comparators.ToEqualNotDual` | expect.js:137-179 | `{}` against `5` passes both `toEqual` and `not.toEqual` |
| `Comparators.ToEqualArrays` | expect.js:154-183 | distinct arrays of equal length with `===` elements at every index pass `toEqual` |
| `Comparators.Elements` | expect.js:198 | element i of the scanned list is `array[i]` under its decimal key; a non-empty list's `length` is its size; numbers and booleans have no elements and an undefined `length` |
| `Comparators.InvocationThrows` | expect.js:396 | calling a subject that is not a function always throws; a function throws exactly when the host says it does |
| `Comparators.Scan` | expect.js:197-216 | the inner recursion ends by returning the chain or by failing with the array and `expected` |
| `Comparators.ScanPositive` | expect.js:202-214 | from index i, the positive scan returns the chain iff `expected` is `===` to an element between i and the one before the last |
| `Comparators.ScanNegated` | expect.js:202-214 | from index i, the negated scan fails iff `expected` is `===` to some element from i to the last |
| `Comparators.RecursiveComparison` | expect.js:191-219 | never returns the chain; any failure carries the array and `expected` |
| `Comparators.ToContainPositive` | expect.js:197-218 | on a non-empty list, `toContain` passes iff `expected` is `===` to an element before the last one |
| `Comparators.ToContainNegated` | expect.js:197-218 | on a non-empty list, `not.toContain` passes iff no element is `===` to `expected` |
| `Comparators.ToContainMissesLast` | expect.js:202-212 | when only the last element matches, both `toContain` and `not.toContain` fail with the array and `expected` |
| `Comparators.MatchComparison` | expect.js:224-241 | a `null` argument is a TypeError; otherwise it passes iff the pattern test equals `!not`, and a failure carries `actual` and the original `expected` |
| `Comparators.ThrowComparison` | expect.js:394-412 | `toThrow` passes iff calling the expression throws, and `not.toThrow` iff it does not; a failure carries the expression and the argument |
| `Comparators.ToThrowOnNonFunction` | expect.js:394-411 | a subject that is not a function passes `toThrow` and fails `not.toThrow` |
| `Matchers.Apply` | expect.js:253-412 | every matcher except `toContain`, and `toMatch` with a `null` argument (a TypeError), returns the chain or fails; `toContain` never returns the chain; toBe, toEqual, toMatch, the orderings, toBeCloseTo, toContain and toThrow fail with the subject and the argument unchanged |
| `Matchers.PresenceMatchers` | expect.js:269-311 | `toBeDefined` passes iff the subject is not `undefined` (its negation iff it is); `toBeUndefined`/`toBeNull` pass iff it is `undefined`/`null`; failures carry the subject and that constant |
| `Matchers.TruthinessMatchers` | expect.js:320-337 | `toBeTruthy` passes iff `!!subject`, `toBeFalsy` iff `!subject`, reversed when negated; a failure carries the coerced boolean and `true` |
| `Matchers.RegistryComplete` | expect.js:253-412 | both tables hold exactly the thirteen matcher names; each name leads to its plain closure in one and its negated closure in the other |
| `Matchers.ExpectJS.AddMatcher` | expect.js:63-66 | sets `prototype[name]` and `prototype.not[name]` and changes nothing else; keeps the two tables' names equal |
| `Matchers.ExpectJS.constructor` | expect.js:52-66 | fixes the subject and fills both tables through the thirteen registrations, leaving them with the same names |
| `Matchers.ExpectJS.Call` | expect.js:415-416 | invoking a registered name runs its closure on the subject; any other name is a TypeError; the tables are not changed; when both tables hold the same names, a name is found under `not` exactly when it is found plain |

## Left out

- Packaging (expect.js:16-40) has no logic: the global or module export,
  `noConflict`, the saved previous `expect` and `VERSION`.
- Failure message strings are not modelled. Only the `actual` and
  `expected` fields of the thrown error are kept.
- Numbers are integers. NaN, `-0`, fractions and floating-point rounding
  are not modelled.
- `JsValues.ToNumber` treats strings, objects, arrays and functions as NaN.
  JavaScript's numeric conversion of strings such as `"5"` and of objects'
  primitive values is not modelled. This affects `<`, `>` and the
  subtraction in `toBeCloseTo` when such operands are mixed with numbers.
- `Comparators.PrecisionComparison` uses exact tolerance arithmetic. The
  host computes `Math.pow(10, -precision) / 2` in floating point, which
  underflows to 0 for precisions above about 323 and overflows for very
  negative ones. Neither effect is modelled.
- `Comparators.MatchComparison` takes the result of `RegExp.test` as an
  input. Building the pattern and a SyntaxError from `new RegExp` are not
  modelled.
- `Comparators.ThrowComparison` takes whether the subject function throws
  as an input. User code is not executed.
- `Comparators.RecursiveComparison` requires a subject that is not an
  object or a function (`Searchable`). The model does not read the
  `length` or index properties of plain objects and functions, which the
  scan reads as `array[0]`, `array[1]`, ... (expect.js:198). Arrays, strings,
  `undefined`, `null`, numbers and booleans are modelled. That includes the
  empty array and values without a length, where the scan never reaches its
  end check.
- Comparators.RecursiveComparison: its recursion depth is unbounded. In
  the host, `recursion(index + 1)` (expect.js:214) adds a stack frame per
  element, so a long enough array throws a RangeError. The model returns a
  pass or an AssertionFailure instead.
- Strings are sequences of Unicode scalar values, not UTF-16 code units.
- `JsValues.Get` reads only own properties, plus `length` of arrays and
  strings. Inherited properties, such as members of `Object.prototype`, and
  functions' own properties are not modelled.
- `JsValues.ForInKeys` takes an object's enumerable keys, inherited ones
  included, as a given list. The order and contents of that list are not
  derived.
- `Matchers.ExpectJS.AddMatcher` requires a name other than `"not"`.
  Registering under `"not"` would replace the negated table itself. The
  constructor never does this.
