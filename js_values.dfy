/** The loosely typed tree a `deps.js` file evaluates to, as JavaScript sees it:
    what `typeof` and the `toType` helper report, what is truthy, what
    `Object.keys` lists, and the exceptions a property access can raise. */
module JsValues {

  /** A JavaScript value of the kinds a declaration tree is built from.
      A number keeps only whether it is truthy (not 0 and not NaN): the
      validators never compute with numbers. An object is its own enumerable
      properties in `Object.keys` order. */
  datatype Value =
    | Str(s: string)
    | Num(truthy: bool)
    | Bool(b: bool)
    | Null
    | Undefined
    | Arr(items: seq<Value>)
    | Obj(members: seq<Member>)

  /** One own property of an object: its key and the value `obj[key]` reads. */
  datatype Member = Member(key: string, val: Value)

  /** The exceptions the validators can raise. */
  datatype JsError = TypeError | ReferenceError

  /** The outcome of a JavaScript call: it returns a value or it throws. */
  datatype Outcome<+T> = Done(value: T) | Threw(error: JsError) {
    predicate IsFailure() { Threw? }

    function PropagateFailure<U>(): Outcome<U>
      requires Threw?
    {
      Threw(error)
    }

    function Extract(): T
      requires Done?
    {
      value
    }
  }

  /** `toType` of index.js: the lower-cased tag of `Object.prototype.toString`. */
  function ToType(v: Value): (t: string)
    ensures t == "string" <==> v.Str?
    ensures t == "boolean" <==> v.Bool?
    ensures t == "array" <==> v.Arr?
    ensures t == "object" <==> v.Obj?
  {
    match v
    case Str(_) => "string"
    case Num(_) => "number"
    case Bool(_) => "boolean"
    case Null => "null"
    case Undefined => "undefined"
    case Arr(_) => "array"
    case Obj(_) => "object"
  }

  /** The `typeof` operator: `null` and arrays are "object" too. */
  function TypeOf(v: Value): (t: string)
    ensures t == "string" <==> v.Str?
    ensures t == "boolean" <==> v.Bool?
    ensures t == "object" <==> (v.Null? || v.Arr? || v.Obj?)
  {
    match v
    case Str(_) => "string"
    case Num(_) => "number"
    case Bool(_) => "boolean"
    case Undefined => "undefined"
    case _ => "object"
  }

  /** JavaScript truthiness, as tested by `if (x)`. */
  predicate Truthy(v: Value) {
    match v
    case Str(s) => s != ""
    case Num(t) => t
    case Bool(b) => b
    case Null => false
    case Undefined => false
    case _ => true
  }

  /** `obj[k]` for an object's own property: the first member with key `k`,
      or `undefined` when there is none. */
  function Get(ms: seq<Member>, k: string): (r: Value)
    ensures (forall m <- ms :: m.key != k) ==> r == Undefined
  {
    if ms == [] then Undefined
    else if ms[0].key == k then ms[0].val
    else Get(ms[1..], k)
  }

  /** `v.length === undefined` for a plain object: there is no own `length`
      property, or it holds `undefined`. */
  predicate LengthUndefined(ms: seq<Member>) {
    Get(ms, "length") == Undefined
  }

  /** `x instanceof Object && x.length === undefined`: only a plain object
      without a defined `length` passes; an array has a numeric length. */
  predicate IsLengthlessObject(v: Value) {
    v.Obj? && LengthUndefined(v.members)
  }

  /** The property names every plain object inherits from `Object.prototype`.
      Reading one of them from a rule table yields a truthy value that has no
      `valueValidation` member. */
  const ObjectPrototypeNames: set<string> := {
    "constructor", "hasOwnProperty", "isPrototypeOf", "propertyIsEnumerable",
    "toLocaleString", "toString", "valueOf", "__proto__",
    "__defineGetter__", "__defineSetter__", "__lookupGetter__", "__lookupSetter__"
  }

  /** One decimal digit as a character. */
  function Digit(d: nat): (c: char)
    requires d < 10
    ensures '0' <= c <= '9'
  {
    "0123456789"[d]
  }

  /** The decimal rendering of an array or string index, the key
      `Object.keys` reports for it. */
  function Decimal(n: nat): (r: string)
    ensures r != []
    ensures forall c <- r :: '0' <= c <= '9'
  {
    if n < 10 then [Digit(n)] else Decimal(n / 10) + [Digit(n % 10)]
  }

  /** Different indices have different keys. */
  lemma {:induction false} DecimalInjective(a: nat, b: nat)
    requires Decimal(a) == Decimal(b)
    ensures a == b
    decreases a
  {
    DecimalShape(a);
    DecimalShape(b);
    if a >= 10 && b >= 10 {
      var da, db := Decimal(a), Decimal(b);
      assert da[..|da| - 1] == Decimal(a / 10);
      assert db[..|db| - 1] == Decimal(b / 10);
      DecimalInjective(a / 10, b / 10);
      assert da[|da| - 1] == Digit(a % 10) && db[|db| - 1] == Digit(b % 10);
      DigitInjective(a % 10, b % 10);
    } else if a < 10 && b < 10 {
      DigitInjective(a, b);
    }
  }

  /** A key is one digit exactly for an index below ten, and it starts with
      a digit. */
  lemma DecimalShape(n: nat)
    ensures |Decimal(n)| == 1 <==> n < 10
    ensures '0' <= Decimal(n)[0] <= '9'
  {
    assert Decimal(n)[0] in Decimal(n);
  }

  lemma DigitInjective(a: nat, b: nat)
    requires a < 10 && b < 10 && Digit(a) == Digit(b)
    ensures a == b
  {
  }

  /** The keys of indices below `n` are pairwise distinct. */
  lemma IndexKeysDistinct(n: nat)
    ensures forall a, b :: 0 <= a < b < n ==> Decimal(a) != Decimal(b)
  {
    forall a, b | 0 <= a < b < n
      ensures Decimal(a) != Decimal(b)
    {
      if Decimal(a) == Decimal(b) {
        DecimalInjective(a, b);
      }
    }
  }

  /** The keys of indices below `n` start with a digit. */
  lemma IndexKeysStartWithDigits(n: nat)
    ensures forall i :: 0 <= i < n ==> '0' <= Decimal(i)[0] <= '9'
  {
    forall i | 0 <= i < n
      ensures '0' <= Decimal(i)[0] <= '9'
    {
      DecimalShape(i);
    }
  }

  /** A key that starts with a letter is never an index key. */
  lemma IndexKeyIsNotAName(i: nat, name: string)
    requires name != [] && !('0' <= name[0] <= '9')
    ensures Decimal(i) != name
  {
    var d := Decimal(i);
    assert d[0] in d;
  }

  /** `[].concat(deps)`: an array's items, or the value alone. */
  function Declarations(deps: Value): (ds: seq<Value>)
    ensures deps.Arr? ==> ds == deps.items
    ensures !deps.Arr? ==> ds == [deps]
  {
    if deps.Arr? then deps.items else [deps]
  }

  /** Joins strings with a separator, as `Array.prototype.join` does. */
  function Join(parts: seq<string>, sep: string): (r: string)
    ensures parts == [] ==> r == ""
    ensures |parts| == 1 ==> r == parts[0]
  {
    if parts == [] then ""
    else if |parts| == 1 then parts[0]
    else parts[0] + sep + Join(parts[1..], sep)
  }

  /** The outcome of a loop that has already gathered `prefix` and then runs
      on with outcome `rest`: an exception in the rest propagates. */
  function Prepend<T>(prefix: seq<T>, rest: Outcome<seq<T>>): (r: Outcome<seq<T>>)
    ensures r.Done? <==> rest.Done?
  {
    match rest
    case Done(tail) => Done(prefix + tail)
    case Threw(e) => Threw(e)
  }

  /** Gathering `a` and then `b` is gathering `a + b`. */
  lemma PrependTwice<T>(a: seq<T>, b: seq<T>, rest: Outcome<seq<T>>)
    ensures Prepend(a, Prepend(b, rest)) == Prepend(a + b, rest)
  {
    if rest.Done? {
      assert a + (b + rest.value) == (a + b) + rest.value;
    }
  }

  /** Nothing gathered yet: the outcome is the rest's. */
  lemma PrependNothing<T>(rest: Outcome<seq<T>>)
    ensures Prepend([], rest) == rest
  {
    if rest.Done? {
      assert [] + rest.value == rest.value;
    }
  }

  /** Nothing left to run: the gathered prefix is the result. */
  lemma PrependDone<T>(a: seq<T>)
    ensures Prepend(a, Done([])) == Done(a)
  {
    assert a + [] == a;
  }
}
