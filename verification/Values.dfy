/**
 JavaScript values as the data layer sees them: JSON, converted property values and object snapshots.
 An object is an unordered dictionary; an array also shows itself as an object keyed by its indices.
 */
module Values {
  import opened Decimal

  datatype Option<+T> = None | Some(value: T)

  /** What a call gives: a value, or an exception that unwinds to the caller. */
  datatype Outcome<+T> = Ok(value: T) | Thrown {
    predicate IsFailure() { Thrown? }
    function PropagateFailure<U>(): Outcome<U> requires Thrown? { Thrown }
    function Extract(): T requires Ok? { value }
  }

  datatype Value =
    | Undefined
    | Null
    | Bool(b: bool)
    | Num(n: real)
    | Str(s: string)
    | Arr(items: seq<Value>)
    | Obj(fields: map<string, Value>)

  predicate IsNullish(v: Value) {
    v.Null? || v.Undefined?
  }

  predicate Truthy(v: Value) {
    match v
    case Undefined => false
    case Null => false
    case Bool(b) => b
    case Num(n) => n != 0.0
    case Str(s) => s != ""
    case Arr(_) => true
    case Obj(_) => true
  }

  /** `typeof v === 'object'` and not null. */
  predicate IsObject(v: Value) {
    v.Arr? || v.Obj?
  }

  function IndexKeys(n: nat): set<string> {
    set i | 0 <= i < n :: Print(i)
  }

  function IndexFields(items: seq<Value>): (m: map<string, Value>)
    ensures m.Keys == IndexKeys(|items|)
    ensures forall i | 0 <= i < |items| :: Print(i) in m && m[Print(i)] == items[i]
  {
    map k | k in IndexKeys(|items|) :: items[Parse(k)]
  }

  /** The own enumerable properties, as `Object.keys` and `Object.entries` list them. */
  function OwnFields(v: Value): map<string, Value> {
    match v
    case Obj(m) => m
    case Arr(items) => IndexFields(items)
    case _ => map[]
  }

  /** Reading `v[key]`: a missing member is undefined, and an array has its length as well. */
  function Lookup(v: Value, key: string): Value {
    if key in OwnFields(v) then OwnFields(v)[key]
    else if v.Arr? && key == "length" then Num(|v.items| as real)
    else Undefined
  }

  lemma {:induction false} IndexKeysCount(n: nat)
    ensures |IndexKeys(n)| == n
  {
    if n > 0 {
      IndexKeysCount(n - 1);
      IndexKeysStep(n - 1);
    }
  }

  lemma IndexKeysStep(n: nat)
    ensures IndexKeys(n + 1) == IndexKeys(n) + {Print(n)} && Print(n) !in IndexKeys(n)
  {
    forall i | 0 <= i < n ensures Print(i) != Print(n) {
      PrintInjective(i, n);
    }
  }

  lemma LengthIsNoIndex(n: nat)
    ensures "length" !in IndexKeys(n)
  {
    forall i | 0 <= i < n ensures Print(i) != "length" {
      assert AllDigits(Print(i)) && !IsDigit("length"[0]);
    }
  }

  /** A field of an object sits strictly inside it. */
  lemma OwnFieldIsSmaller(v: Value, key: string)
    requires key in OwnFields(v)
    ensures OwnFields(v)[key] < v
  {
  }
}
