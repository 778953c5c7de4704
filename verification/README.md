# Component store of the ecos entity-component library, in Dafny

This project models the component store of ecos (`src/components/Component.js`):

- how a component's definition becomes a factory (`getFactory`);
- the shallow merge of a default object with the data passed to `set` (`Component.mergeObjects`);
- the sparse per-entity store behind `get`, `set` and `has`.

It proves what the store promises. `set` always recomputes from the original definition and replaces the entry. `has` is true exactly for the ids that were set. A `set` touches no other id. The merge has exactly the keys of both objects, override values win, and merging twice is the same as merging once. For keys that are not integer-like, the merged key order is the one JavaScript gives: defaults first, then the new override keys in order.

Modules:

- `JsValue` (`js_value.dfy`): the JavaScript values the store handles. It covers `undefined`, `null`, booleans, numbers (as integers), strings, opaque function references and plain objects. A plain object is its `Object.keys` order plus its key/value map. It also holds `typeof`, truthiness and the well-formedness every real object has: each key listed once, and exactly the keys it holds.
- `Merge` (`merge.dfy`): `mergeObjects`. Each `forEach` loop is a left fold of single property assignments.
- `Definition` (`definition.dfy`): the four factories and `getFactory`. A user-written function is an opaque reference `Func(ref)`. A `host` parameter gives it behaviour.
- `ComponentStore` (`component_store.dfy`): the `Component` class as an immutable value, plus lemmas about any history of `set` calls.

Two details of the code shape the model:

- The guard is `data && typeof data === 'object'` (src/components/Component.js:58), so an array, which is an object keyed by index strings, is merged like any other object.
- `typeof null` is `"object"`, so a `null` definition fails the non-null object test. It falls through to the constant factory, not to the merge.

## Model

| member | source | states |
|---|---|---|
| ComponentStore.Get | src/components/Component.js:14-16 | the observer `get`: an id whose read is not `undefined` has an entry in the store; what it reads is fixed by `NewComponent`, `Set` and `ReplayState` |
| ComponentStore.Has | src/components/Component.js:38-40 | the observer `has`: when it is false `get` reads `undefined`, and when it is true `get` reads the stored entry; its truth is fixed by `NewComponent`, `Set` and `ReplayState` |
| Definition.Apply | src/components/Component.js:27 | `this.factory(data)`: a template factory yields an object, well-formed when the template is, with the template's keys first; the identity factory yields the data; a constant factory yields its constant whatever the data |
| JsValue.TypeOf | src/components/Component.js:69-75 | `typeof` answers "object" exactly for `null` and objects, "function" exactly for functions, "undefined" exactly for `undefined` |
| Merge.Assign | src/components/Component.js:59-61 | one property assignment sets that key's value, leaves every other key's value alone, adds the key to the key set and keeps the existing key order as a prefix |
| Merge.CopyKeys | src/components/Component.js:54-61 | copying a list of keys from a source gives each listed key the source's value, leaves unlisted keys as they were, adds exactly the listed keys and keeps well-formedness and the prior key order |
| Merge.CopyKeysOrder | src/components/Component.js:54-61 | the keys a run of assignments appends are the listed keys not already present, each once, in first-occurrence order |
| Merge.CopyAllRebuilds | src/components/Component.js:52-56 | copying every key of a well-formed object into a fresh `{}` rebuilds the same object, key order included |
| Merge.Overrides | src/components/Component.js:58 | the guard `data && typeof data === 'object'` holds exactly for objects; `undefined`, `null`, booleans, numbers, strings and functions are ignored |
| Merge.MergeObjects | src/components/Component.js:51-65 | the result has exactly the default keys plus the override keys; override keys take the override's values and every other default key keeps its default; keys are the defaults in order followed by the new override keys; a non-object override yields a copy of the defaults |
| Merge.MergeIdempotent | src/components/Component.js:51-65 | merging the same override into an already merged result changes nothing |
| Merge.MergeExample | src/components/Component.js:51-65 | `{a: 1, b: 2}` merged with `{b: 3, c: 4}` is exactly `{a: 1, b: 3, c: 4}`, keys in that order |
| Definition.GetFactory | src/components/Component.js:68-80 | a function definition is called as is, a non-null object merges the data into it, `undefined` gives the identity, and anything else gives a factory that ignores its data and returns the definition |
| Definition.NullDefinitionIsConstant | src/components/Component.js:73-79 | `null` is of type "object" yet resolves to the constant factory returning `null`, whatever the data |
| Definition.TemplateYieldsObject | src/components/Component.js:73-74 | a template definition always produces a well-formed object whose keys start with the template's keys |
| ComponentStore.NewComponent | src/components/Component.js:2-5 | a new component has no entity data (`has` false, `get` undefined for every id) and its factory is the one resolved from its definition |
| ComponentStore.Set | src/components/Component.js:26-28 | after `set(id, d)`, `has(id)` holds and `get(id)` is the factory applied to `d`; `has`/`get` of every other id and the factory are unchanged |
| ComponentStore.ReplayState | src/components/Component.js:14-40 | after any history of writes, an id has data exactly when it had some before or was written, its data is the factory applied to its last write's data, and the factory is unchanged |
| ComponentStore.HistoryOfFreshComponent | src/components/Component.js:2-40 | for a fresh component, `has(id)` holds exactly when `set(id, …)` was called, and `get(id)` is the original definition's factory applied to the last such data, or `undefined` |
| ComponentStore.SetReplaces | src/components/Component.js:26-28 | `set(id, d1); set(id, d2)` leaves the same component as `set(id, d2)` alone |
| ComponentStore.TemplateExample | src/components/Component.js:26-28 | a component defined by `{a: 1, b: 2}` with `set(7, {b: 3, c: 4})` holds `{a: 1, b: 3, c: 4}` for entity 7 |
| ComponentStore.ConstantExample | src/components/Component.js:79 | a component defined by `42` holds `42` after any `set` |
| ComponentStore.HasWithUndefinedData | src/components/Component.js:38-40 | with no definition, `set(id, undefined)` makes `has(id)` true while `get(id)` stays `undefined` |

## Left out

- `ComponentCollection`, `NullComponent`, `IdFactory`, `Entity`, `EntityIterator`, `FilteredIterator` and `IteratorFactory` are not modelled. They sit outside the per-component store.
- `src/index.js` is not modelled. It only wires constructors together.
- `src/Eco.js` is not modelled. It is a two-method delegation facade. Its constructor takes `(entityFactory, componentCollection)`, while `src/index.js` passes four arguments in another order. That is a wiring mismatch, not store logic.
- Mutation and aliasing are not modelled. Values are immutable, so "neither input is modified" holds by construction. The model does not capture that the identity factory stores the caller's own object, or that a template object mutated after registration would affect later `set` calls.
- User-written functions are modelled as pure functions of their argument, given by the `host` parameter. Side effects, exceptions and `this` are left out.
- Numbers are integers. `NaN`, fractions and `-0` are left out, and `0` is the only falsy number.
- BigInt and symbol values are left out, and so are objects with non-string keys.
- Entity ids are integers. JavaScript's conversion of ids to property-name strings is left out, and so are inherited properties that `this.entities[entityId]` could read.
- `Object.keys` ordering is modelled as plain insertion order. JavaScript lists integer-like keys first in ascending order; that rule is left out.
- The key `__proto__` is left out. In JavaScript, `instance['__proto__'] = v` in the merge calls the prototype setter and creates no own key. The model treats it as an ordinary key, so the key-set and value statements of `Merge.MergeObjects` do not cover it.
- `mergeObjects` is modelled only with an object as its defaults, which is how `getFactory` calls it. Calls with primitive defaults are left out.
- The return value of `set` is left out. Its doc comment says it returns the component data, but the code returns nothing. The model describes the stored state.
