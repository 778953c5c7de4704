/**
 The per-component sparse store: the `Component` class, a map from entity id
 to that entity's instance data plus the factory resolved once from the
 component's definition.
 */
module ComponentStore {
  import opened JsValue
  import opened Merge
  import opened Definition

  datatype Option<T> = None | Some(value: T)

  datatype Component = Component(factory: Factory, entities: map<int, Value>)

  /** One call `set(id, data)`. */
  datatype Write = Write(id: int, data: Value)

  /** `new Component(definition)`: no entity has data yet. */
  function NewComponent(definition: Value, host: Host): (c: Component)
    ensures forall id :: !Has(c, id) && Get(c, id) == Undefined
    ensures forall d :: Apply(c.factory, d) == Apply(GetFactory(definition, host), d)
  {
    Component(GetFactory(definition, host), map[])
  }

  /** `get(entityId)`: the stored data, or `undefined` for an id never set. */
  function Get(c: Component, id: int): (v: Value)
    ensures v != Undefined ==> id in c.entities
  {
    if id in c.entities then c.entities[id] else Undefined
  }

  /** `has(entityId)`: whether `set` stored data under the id. */
  function Has(c: Component, id: int): (b: bool)
    ensures !b ==> Get(c, id) == Undefined
    ensures b ==> id in c.entities && Get(c, id) == c.entities[id]
  {
    id in c.entities
  }

  /** `set(entityId, data)`: store `factory(data)` under the id, replacing what was there. */
  function Set(c: Component, id: int, data: Value): (r: Component)
    ensures Has(r, id) && Get(r, id) == Apply(c.factory, data)
    ensures forall other :: other != id ==> Has(r, other) == Has(c, other)
    ensures forall other :: other != id ==> Get(r, other) == Get(c, other)
    ensures forall d :: Apply(r.factory, d) == Apply(c.factory, d)
  {
    Component(c.factory, c.entities[id := Apply(c.factory, data)])
  }

  /** The store after a history of `set` calls, oldest first. */
  function Replay(c: Component, ws: seq<Write>): Component
    decreases |ws|
  {
    if |ws| == 0 then c
    else
      var w := ws[|ws| - 1];
      Set(Replay(c, ws[..|ws| - 1]), w.id, w.data)
  }

  /** The data of the most recent write to `id` in a history, if any. */
  function LastWrite(ws: seq<Write>, id: int): (r: Option<Value>)
    ensures r.None? <==> forall i :: 0 <= i < |ws| ==> ws[i].id != id
    decreases |ws|
  {
    if |ws| == 0 then None
    else if ws[|ws| - 1].id == id then Some(ws[|ws| - 1].data)
    else LastWrite(ws[..|ws| - 1], id)
  }

  /**
   After any history of writes, an id has data exactly when it had data
   before or was written, and its data is the factory applied to the data of
   its LAST write; the factory itself never changes.
   */
  lemma {:induction false} ReplayState(c: Component, ws: seq<Write>, id: int)
    ensures Has(Replay(c, ws), id) <==> Has(c, id) || exists i :: 0 <= i < |ws| && ws[i].id == id
    ensures Get(Replay(c, ws), id) ==
              match LastWrite(ws, id)
              case Some(d) => Apply(c.factory, d)
              case None => Get(c, id)
    ensures forall d :: Apply(Replay(c, ws).factory, d) == Apply(c.factory, d)
    decreases |ws|
  {
    if |ws| > 0 {
      var init := ws[..|ws| - 1];
      ReplayState(c, init, id);
      var w := ws[|ws| - 1];
      if exists i :: 0 <= i < |ws| && ws[i].id == id {
        var i :| 0 <= i < |ws| && ws[i].id == id;
        if i < |init| {
          assert init[i].id == id;
        }
      }
      if exists i :: 0 <= i < |init| && init[i].id == id {
        var i :| 0 <= i < |init| && init[i].id == id;
        assert ws[i].id == id;
      }
    }
  }

  /**
   For a fresh component, `has(id)` is true exactly when `set(id, …)` was
   called, and `get(id)` is the ORIGINAL definition's factory applied to the
   data of the last such call, or `undefined` when there was none.
   */
  lemma HistoryOfFreshComponent(definition: Value, host: Host, ws: seq<Write>, id: int)
    ensures Has(Replay(NewComponent(definition, host), ws), id) <==>
              exists i :: 0 <= i < |ws| && ws[i].id == id
    ensures Get(Replay(NewComponent(definition, host), ws), id) ==
              match LastWrite(ws, id)
              case Some(d) => Apply(GetFactory(definition, host), d)
              case None => Undefined
  {
    ReplayState(NewComponent(definition, host), ws, id);
  }

  /** A second `set` on the same id replaces the first: nothing of the first remains. */
  lemma SetReplaces(c: Component, id: int, d1: Value, d2: Value)
    ensures Set(Set(c, id, d1), id, d2) == Set(c, id, d2)
  {
  }

  /** A template `{a: 1, b: 2}` with `set(7, {b: 3, c: 4})` gives `{a: 1, b: 3, c: 4}`. */
  lemma TemplateExample(host: Host)
    ensures Get(Set(NewComponent(Obj(ExampleDefaults), host), 7, Obj(ExampleOverride)), 7) == Obj(ExampleMerged)
  {
    MergeExample();
  }

  /** A primitive definition `42` stores `42` whatever data is passed to `set`. */
  lemma ConstantExample(host: Host, id: int, data: Value)
    ensures Get(Set(NewComponent(Num(42), host), id, data), id) == Num(42)
  {
  }

  /**
   `has` and `get` are independent: a component without a definition stores
   the data as given, so `set(id, undefined)` makes `has(id)` true while
   `get(id)` is still `undefined`.
   */
  lemma HasWithUndefinedData(host: Host, id: int)
    ensures var c := Set(NewComponent(Undefined, host), id, Undefined);
      Has(c, id) && Get(c, id) == Undefined
  {
  }
}
