/**
 Resolution of a component definition into the factory that turns the data
 passed to `set` into the instance data that gets stored.
 */
module Definition {
  import opened JsValue
  import opened Merge

  /**
   Gives behaviour to the user-written functions a definition or its data
   can refer to: `Func(ref)` is called as `host(ref)`.
   */
  type Host = nat -> (Value -> Value)

  /** The four factories a definition can resolve to. */
  datatype Factory =
    | Call(fn: Value -> Value)     // the definition was itself a function
    | MergeWith(template: Object)  // the definition was a non-null object
    | Identity                     // the definition was `undefined`
    | Constant(value: Value)       // anything else, `null` included

  /** Running a factory on the data passed to `set`. */
  function Apply(f: Factory, data: Value): (r: Value)
    ensures f.MergeWith? ==> r.Obj?
    ensures f.MergeWith? && WellFormed(f.template) ==> WellFormed(r.o) && f.template.keys <= r.o.keys
    ensures f.Identity? ==> r == data
    ensures f.Constant? ==> r == f.value
  {
    match f
    case Call(fn) => fn(data)
    case MergeWith(template) => Obj(MergeObjects(template, data))
    case Identity => data
    case Constant(v) => v
  }

  /** `getFactory(definition)`, dispatching on `typeof definition`. */
  function GetFactory(definition: Value, host: Host): (f: Factory)
    ensures f.MergeWith? <==> definition.Obj?
    ensures f.Identity? <==> definition.Undefined?
    ensures f.Constant? <==> !definition.Func? && !definition.Obj? && !definition.Undefined?
    ensures definition.Func? ==> forall d :: Apply(f, d) == host(definition.ref)(d)
    ensures definition.Obj? ==> forall d :: Apply(f, d) == Obj(MergeObjects(definition.o, d))
    ensures definition.Undefined? ==> forall d :: Apply(f, d) == d
    ensures f.Constant? ==> forall d :: Apply(f, d) == definition
  {
    var t := TypeOf(definition);
    if t == TFunction then Call(host(definition.ref))
    else if t == TObject && definition != Null then MergeWith(definition.o)
    else if t == TUndefined then Identity
    else Constant(definition)
  }

  /**
   `typeof null` is "object", yet a `null` definition is not merged: it
   resolves to the constant factory that always yields `null`.
   */
  lemma NullDefinitionIsConstant(host: Host, data: Value)
    ensures TypeOf(Null) == TObject
    ensures GetFactory(Null, host) == Constant(Null)
    ensures Apply(GetFactory(Null, host), data) == Null
  {
  }

  /** A template factory always yields an object that starts with the template's keys. */
  lemma TemplateYieldsObject(template: Object, host: Host, data: Value)
    requires WellFormed(template)
    ensures var r := Apply(GetFactory(Obj(template), host), data);
      r.Obj? && WellFormed(r.o) && template.keys <= r.o.keys
  {
  }
}
