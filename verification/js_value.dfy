/**
 The slice of JavaScript's value universe that component data lives in.

 Numbers are modelled as mathematical integers, strings as `seq<char>`, and
 user-written functions as opaque references (`Func(ref)`) that a host
 interpretation turns into behaviour where it is needed. A plain object is
 its own enumerable keys in enumeration order together with the map from
 key to value.
 */
module JsValue {

  datatype Value =
    | Undefined
    | Null
    | Bool(b: bool)
    | Num(n: int)
    | Str(s: string)
    | Func(ref: nat)
    | Obj(o: Object)

  /** A plain object: `keys` is what `Object.keys` enumerates, `fields` what each key holds. */
  datatype Object = Object(keys: seq<string>, fields: map<string, Value>)

  /** The answers of the `typeof` operator that the values above can give. */
  datatype JsType = TUndefined | TObject | TBoolean | TNumber | TString | TFunction

  const EmptyObject: Object := Object([], map[])

  /** `typeof v`; note that `typeof null` is "object". */
  function TypeOf(v: Value): (t: JsType)
    ensures t == TObject <==> v.Null? || v.Obj?
    ensures t == TFunction <==> v.Func?
    ensures t == TUndefined <==> v.Undefined?
  {
    match v
    case Undefined => TUndefined
    case Null => TObject
    case Bool(_) => TBoolean
    case Num(_) => TNumber
    case Str(_) => TString
    case Func(_) => TFunction
    case Obj(_) => TObject
  }

  /** JavaScript truthiness: `undefined`, `null`, `false`, `0` and `""` are falsy. */
  predicate Truthy(v: Value) {
    match v
    case Undefined => false
    case Null => false
    case Bool(b) => b
    case Num(n) => n != 0
    case Str(s) => s != ""
    case Func(_) => true
    case Obj(_) => true
  }

  /**
   The shape every JavaScript object has: `Object.keys` lists each own key
   exactly once, and lists exactly the keys the object holds.
   */
  ghost predicate WellFormed(o: Object) {
    && (forall i, j :: 0 <= i < j < |o.keys| ==> o.keys[i] != o.keys[j])
    && (forall k :: k in o.fields <==> k in o.keys)
  }

  /** Property read `o[k]`: an absent own key reads as `undefined`. */
  function Property(o: Object, k: string): Value {
    if k in o.fields then o.fields[k] else Undefined
  }
}
