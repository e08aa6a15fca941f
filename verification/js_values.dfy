/**
 The JavaScript values the assertion engine inspects, and the few host
 operations it applies to them: strict equality (`===`), `typeof`, the
 boolean coercion behind `!!x`, the relational operator `<`, enumeration
 with `for...in` and property reads `v[key]`.

 Objects, arrays and functions are references: each carries the address of
 the heap object it denotes, and `===` compares addresses only.
 */
module JsValues {

  datatype Option<T> = None | Some(value: T)

  datatype Value =
    | Undefined
    | Null
    | Bool(b: bool)
    | Num(n: int)
    | Str(s: string)
    | Fn(fid: nat)
    | Obj(oid: nat, keys: seq<string>, props: map<string, Value>)
    | Arr(aid: nat, elems: seq<Value>)

  predicate IsReference(v: Value) {
    v.Fn? || v.Obj? || v.Arr?
  }

  /** The heap address of a reference. */
  function Ref(v: Value): nat
    requires IsReference(v)
  {
    match v
    case Fn(a) => a
    case Obj(a, _, _) => a
    case Arr(a, _) => a
  }

  /** `a === b`: references are identical when they denote the same heap
      object; primitives when they are the same value. */
  predicate StrictEq(a: Value, b: Value)
    ensures a == b ==> StrictEq(a, b)
    ensures StrictEq(a, b) && !IsReference(a) ==> a == b
    ensures IsReference(a) != IsReference(b) ==> !StrictEq(a, b)
  {
    if IsReference(a) && IsReference(b) then Ref(a) == Ref(b) else a == b
  }

  /** Two values read from one consistent heap: if they are the same
      object, they also have the same contents. */
  predicate Coherent(a: Value, b: Value) {
    StrictEq(a, b) ==> a == b
  }

  predicate Nullish(v: Value) {
    v.Undefined? || v.Null?
  }

  function TypeOf(v: Value): string {
    match v
    case Undefined => "undefined"
    case Null => "object"
    case Bool(_) => "boolean"
    case Num(_) => "number"
    case Str(_) => "string"
    case Fn(_) => "function"
    case Obj(_, _, _) => "object"
    case Arr(_, _) => "object"
  }

  /** `typeof v === "object"`, which holds of `null` too. */
  predicate TypeofIsObject(v: Value)
    ensures TypeofIsObject(v) <==> v.Null? || v.Obj? || v.Arr?
  {
    TypeOf(v) == "object"
  }

  /** `!!v`: every value is truthy except `undefined`, `null`, `false`, `0`
      and the empty string. */
  predicate Truthy(v: Value)
    ensures !Truthy(v) <==> v in {Undefined, Null, Bool(false), Num(0), Str("")}
  {
    match v
    case Undefined => false
    case Null => false
    case Bool(b) => b
    case Num(n) => n != 0
    case Str(s) => s != ""
    case _ => true
  }

  /** The numeric conversion applied by `-` and by `<` on non-strings;
      `None` stands for NaN. Strings and references convert to NaN here. */
  function ToNumber(v: Value): Option<int> {
    match v
    case Null => Some(0)
    case Bool(b) => Some(if b then 1 else 0)
    case Num(n) => Some(n)
    case _ => None
  }

  /** Lexicographic order of strings, element by element. */
  predicate StrLess(a: string, b: string) {
    if b == [] then false
    else if a == [] then true
    else if a[0] != b[0] then a[0] < b[0]
    else StrLess(a[1..], b[1..])
  }

  /** `a < b`; `a > b` is `b < a`. Any comparison with NaN is false. */
  predicate JsLess(a: Value, b: Value)
    ensures a.Num? && b.Num? ==> (JsLess(a, b) <==> a.n < b.n)
    ensures a.Undefined? || b.Undefined? ==> !JsLess(a, b)
    ensures IsReference(a) || IsReference(b) ==> !JsLess(a, b)
  {
    if a.Str? && b.Str? then StrLess(a.s, b.s)
    else match (ToNumber(a), ToNumber(b))
      case (Some(x), Some(y)) => x < y
      case _ => false
  }

  lemma {:induction false} StrLessIrreflexive(a: string)
    ensures !StrLess(a, a)
    decreases |a|
  {
    if a != [] {
      StrLessIrreflexive(a[1..]);
    }
  }

  lemma {:induction false} StrLessAsymmetric(a: string, b: string)
    ensures StrLess(a, b) ==> !StrLess(b, a)
    decreases |a|
  {
    if a != [] && b != [] && a[0] == b[0] {
      StrLessAsymmetric(a[1..], b[1..]);
    }
  }

  /** No value is less than itself. */
  lemma JsLessIrreflexive(a: Value)
    ensures !JsLess(a, a)
  {
    if a.Str? {
      StrLessIrreflexive(a.s);
    }
  }

  /** `a < b` and `b < a` never hold together. */
  lemma JsLessAsymmetric(a: Value, b: Value)
    ensures JsLess(a, b) ==> !JsLess(b, a)
  {
    if a.Str? && b.Str? {
      StrLessAsymmetric(a.s, b.s);
    }
  }

  // Array index keys: the decimal names "0", "1", ... under which for...in
  // yields the elements of an array or the characters of a string.

  predicate IsDigit(c: char) {
    '0' <= c <= '9'
  }

  function DigitChar(d: nat): (c: char)
    requires d < 10
    ensures IsDigit(c)
  {
    "0123456789"[d]
  }

  /** The canonical decimal name of an index. */
  function IndexName(n: nat): string
    decreases n
  {
    if n < 10 then [DigitChar(n)] else IndexName(n / 10) + [DigitChar(n % 10)]
  }

  function IndexNames(n: nat): (r: seq<string>)
    ensures |r| == n
    ensures forall i :: 0 <= i < n ==> r[i] == IndexName(i)
  {
    seq(n, i requires 0 <= i => IndexName(i))
  }

  predicate AllDigits(s: string) {
    forall i :: 0 <= i < |s| ==> IsDigit(s[i])
  }

  function DigitsValue(s: string): nat
    requires AllDigits(s)
    decreases |s|
  {
    if s == [] then 0
    else DigitsValue(s[..|s| - 1]) * 10 + ((s[|s| - 1] as int) - ('0' as int))
  }

  /** The index a property key names, if it is a canonical index name:
      digits only, and no leading zero unless the key is "0". */
  function ParseIndex(key: string): Option<nat> {
    if key == [] || !AllDigits(key) || (key[0] == '0' && |key| > 1) then None
    else Some(DigitsValue(key))
  }

  lemma {:induction false} IndexNameShape(n: nat)
    ensures IndexName(n) != [] && AllDigits(IndexName(n))
    ensures DigitsValue(IndexName(n)) == n
    ensures n > 0 ==> IndexName(n)[0] != '0'
    ensures n == 0 ==> IndexName(n) == "0"
    decreases n
  {
    if n >= 10 {
      IndexNameShape(n / 10);
      var s := IndexName(n / 10) + [DigitChar(n % 10)];
      assert s[..|s| - 1] == IndexName(n / 10);
    }
  }

  /** Naming an index and parsing the name back gives the index. */
  lemma IndexNameRoundTrip(n: nat)
    ensures ParseIndex(IndexName(n)) == Some(n)
  {
    IndexNameShape(n);
  }

  /** The keys `for (k in v)` enumerates, in order. */
  function ForInKeys(v: Value): (keys: seq<string>)
    ensures Nullish(v) ==> keys == []
    ensures !v.Obj? && !v.Arr? && !v.Str? ==> keys == []
    ensures v.Arr? ==> |keys| == |v.elems|
    ensures v.Str? ==> |keys| == |v.s|
  {
    match v
    case Obj(_, keys, _) => keys
    case Arr(_, elems) => IndexNames(|elems|)
    case Str(s) => IndexNames(|s|)
    case _ => []
  }

  /** `v[key]`. Reading a property of `undefined` or `null` is a TypeError,
      so the receiver must be neither. */
  function Get(v: Value, key: string): (r: Value)
    requires !Nullish(v)
    ensures v.Obj? ==> r == (if key in v.props then v.props[key] else Undefined)
    ensures v.Arr? && key == "length" ==> r == Num(|v.elems|)
    ensures v.Str? && key == "length" ==> r == Num(|v.s|)
    ensures v.Bool? || v.Num? || v.Fn? ==> r == Undefined
  {
    match v
    case Obj(_, _, props) => if key in props then props[key] else Undefined
    case Arr(_, elems) =>
      if key == "length" then Num(|elems|)
      else (match ParseIndex(key)
        case Some(i) => if i < |elems| then elems[i] else Undefined
        case None => Undefined)
    case Str(s) =>
      if key == "length" then Num(|s|)
      else (match ParseIndex(key)
        case Some(i) => if i < |s| then Str([s[i]]) else Undefined
        case None => Undefined)
    case _ => Undefined
  }

  /** Reading the i-th index key of an array gives its i-th element, and of
      a string the one-character string at i. */
  lemma GetArrayIndex(v: Value, i: nat)
    requires (v.Arr? && i < |v.elems|) || (v.Str? && i < |v.s|)
    ensures v.Arr? ==> Get(v, IndexName(i)) == v.elems[i]
    ensures v.Str? ==> Get(v, IndexName(i)) == Str([v.s[i]])
  {
    IndexNameRoundTrip(i);
    IndexNameShape(i);
    assert IndexName(i) != "length" by {
      assert !IsDigit("length"[0]);
    }
  }
}
