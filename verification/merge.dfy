/**
 The shallow merge of a component's default object with the data passed to
 `set`. Both `forEach` loops of the source are modelled as left folds of
 single-key property assignments. Key order is insertion order, which is
 JavaScript's rule for keys that are not integer-like: assigning to a key the
 object already holds keeps its position, assigning to a new key appends it.
 */
module Merge {
  import opened JsValue

  /** `o[k] = v` on a plain object. */
  function Assign(o: Object, k: string, v: Value): (r: Object)
    ensures WellFormed(o) ==> WellFormed(r)
    ensures r.fields.Keys == o.fields.Keys + {k}
    ensures Property(r, k) == v
    ensures forall j :: j != k ==> Property(r, j) == Property(o, j)
    ensures o.keys <= r.keys
  {
    if k in o.fields then Object(o.keys, o.fields[k := v])
    else Object(o.keys + [k], o.fields[k := v])
  }

  /** `ks.forEach(key => { o[key] = src[key]; })`, returning the final `o`. */
  function CopyKeys(o: Object, src: Object, ks: seq<string>): (r: Object)
    ensures WellFormed(o) ==> WellFormed(r)
    ensures r.fields.Keys == o.fields.Keys + (set k | k in ks)
    ensures forall k :: k in ks ==> Property(r, k) == Property(src, k)
    ensures forall k :: k !in ks ==> Property(r, k) == Property(o, k)
    ensures o.keys <= r.keys
    decreases |ks|
  {
    if |ks| == 0 then o
    else CopyKeys(Assign(o, ks[0], Property(src, ks[0])), src, ks[1..])
  }

  /**
   The keys of `ks` that are not in `seen`, each once, in order of first
   occurrence: the keys a fold of assignments appends.
   */
  function NewKeys(seen: set<string>, ks: seq<string>): seq<string>
    decreases |ks|
  {
    if |ks| == 0 then []
    else if ks[0] in seen then NewKeys(seen, ks[1..])
    else [ks[0]] + NewKeys(seen + {ks[0]}, ks[1..])
  }

  /** The merge applies the override only to a truthy value whose `typeof` is "object". */
  function Overrides(data: Value): (b: bool)
    ensures b <==> data.Obj?
  {
    Truthy(data) && TypeOf(data) == TObject
  }

  /** `Component.mergeObjects(defaultData, data)`. */
  function MergeObjects(defaults: Object, data: Value): (r: Object)
    ensures WellFormed(defaults) ==> WellFormed(r)
    ensures forall k :: k in r.fields <==> k in defaults.keys || (data.Obj? && k in data.o.keys)
    ensures forall k :: data.Obj? && k in data.o.keys ==> Property(r, k) == Property(data.o, k)
    ensures forall k :: k in defaults.keys && !(data.Obj? && k in data.o.keys) ==>
              Property(r, k) == Property(defaults, k)
    ensures WellFormed(defaults) ==>
              r.keys == defaults.keys + (if data.Obj? then NewKeys(defaults.fields.Keys, data.o.keys) else [])
    ensures WellFormed(defaults) && !data.Obj? ==> r == defaults
  {
    var base := CopyKeys(EmptyObject, defaults, defaults.keys);
    assert WellFormed(defaults) ==> base == defaults by {
      if WellFormed(defaults) {
        CopyAllRebuilds(defaults);
      }
    }
    if Overrides(data) then
      CopyKeysOrder(base, data.o, data.o.keys);
      CopyKeys(base, data.o, data.o.keys)
    else base
  }

  /** The keys a fold of assignments appends are exactly `NewKeys` of the keys it was given. */
  lemma {:induction false} CopyKeysOrder(o: Object, src: Object, ks: seq<string>)
    ensures CopyKeys(o, src, ks).keys == o.keys + NewKeys(o.fields.Keys, ks)
    decreases |ks|
  {
    if |ks| > 0 {
      var o' := Assign(o, ks[0], Property(src, ks[0]));
      CopyKeysOrder(o', src, ks[1..]);
      if ks[0] in o.fields {
        assert o'.fields.Keys == o.fields.Keys;
      } else {
        assert o'.keys == o.keys + [ks[0]];
      }
    }
  }

  /** A list of distinct keys none of which has been seen is its own list of new keys. */
  lemma {:induction false} NewKeysOfDistinct(seen: set<string>, ks: seq<string>)
    requires forall i, j :: 0 <= i < j < |ks| ==> ks[i] != ks[j]
    requires forall i :: 0 <= i < |ks| ==> ks[i] !in seen
    ensures NewKeys(seen, ks) == ks
    decreases |ks|
  {
    if |ks| > 0 {
      var rest := ks[1..];
      forall i | 0 <= i < |rest|
        ensures rest[i] !in seen + {ks[0]}
      {
        assert rest[i] == ks[i + 1];
      }
      NewKeysOfDistinct(seen + {ks[0]}, rest);
      assert ks == [ks[0]] + rest;
    }
  }

  /** Copying every key of a well-formed object into an empty one keeps its key order. */
  lemma {:induction false} CopyAllKeepsOrder(o: Object)
    requires WellFormed(o)
    ensures CopyKeys(EmptyObject, o, o.keys).keys == o.keys
  {
    CopyKeysOrder(EmptyObject, o, o.keys);
    assert EmptyObject.fields.Keys == {};
    NewKeysOfDistinct(EmptyObject.fields.Keys, o.keys);
  }

  /** Copying every key of a well-formed object into an empty one gives it the same fields. */
  lemma {:induction false} CopyAllKeepsFields(o: Object)
    requires WellFormed(o)
    ensures CopyKeys(EmptyObject, o, o.keys).fields == o.fields
  {
    var r := CopyKeys(EmptyObject, o, o.keys);
    assert r.fields.Keys == o.fields.Keys by {
      assert EmptyObject.fields.Keys == {};
    }
    assert forall k :: k in r.fields ==> r.fields[k] == o.fields[k] by {
      forall k | k in r.fields
        ensures r.fields[k] == o.fields[k]
      {
        assert k in o.keys;
        assert Property(r, k) == Property(o, k);
      }
    }
    SameFields(r.fields, o.fields);
  }

  /** Two field maps with the same keys and the same value at every key are equal. */
  lemma SameFields(a: map<string, Value>, b: map<string, Value>)
    requires a.Keys == b.Keys
    requires forall k :: k in a ==> a[k] == b[k]
    ensures a == b
  {
  }

  /** Copying every key of a well-formed object into an empty one rebuilds that object. */
  lemma {:induction false} CopyAllRebuilds(o: Object)
    requires WellFormed(o)
    ensures CopyKeys(EmptyObject, o, o.keys) == o
  {
    CopyAllKeepsOrder(o);
    CopyAllKeepsFields(o);
  }

  /** Assigning values an object already holds leaves it as it was. */
  lemma {:induction false} CopyKeysUnchanged(o: Object, src: Object, ks: seq<string>)
    requires forall k :: k in ks ==> k in o.fields && o.fields[k] == Property(src, k)
    ensures CopyKeys(o, src, ks) == o
    decreases |ks|
  {
    if |ks| > 0 {
      var o' := Assign(o, ks[0], Property(src, ks[0]));
      assert o'.fields == o.fields;
      CopyKeysUnchanged(o', src, ks[1..]);
    }
  }

  /** Merging the same override a second time changes nothing. */
  lemma {:induction false} MergeIdempotent(defaults: Object, data: Value)
    requires WellFormed(defaults)
    ensures MergeObjects(MergeObjects(defaults, data), data) == MergeObjects(defaults, data)
  {
    var m := MergeObjects(defaults, data);
    if data.Obj? {
      CopyAllRebuilds(m);
      forall k | k in data.o.keys
        ensures k in m.fields && m.fields[k] == Property(data.o, k)
      {
        assert Property(m, k) == Property(data.o, k);
      }
      CopyKeysUnchanged(m, data.o, data.o.keys);
    }
  }

  /** The worked example of a merge: defaults `{a: 1, b: 2}`, override `{b: 3, c: 4}`. */
  const ExampleDefaults: Object := Object(["a", "b"], map["a" := Num(1), "b" := Num(2)])
  const ExampleOverride: Object := Object(["b", "c"], map["b" := Num(3), "c" := Num(4)])
  const ExampleMerged: Object := Object(["a", "b", "c"], map["a" := Num(1), "b" := Num(3), "c" := Num(4)])

  /** The three one-letter keys of the example are different strings. */
  lemma DistinctExampleKeys()
    ensures "a" != "b" && "a" != "c" && "b" != "c"
  {
    assert "a"[0] != "b"[0] && "a"[0] != "c"[0] && "b"[0] != "c"[0];
  }

  /** Assigning `b: 3` and then `c: 4` over `{a: 1, b: 2}` gives `{a: 1, b: 3, c: 4}`. */
  lemma ExampleOverlay()
    ensures CopyKeys(ExampleDefaults, ExampleOverride, ExampleOverride.keys) == ExampleMerged
  {
    DistinctExampleKeys();
    var o1 := Assign(ExampleDefaults, "b", Num(3));
    assert o1 == Object(["a", "b"], map["a" := Num(1), "b" := Num(3)]);
    assert ExampleOverride.keys[1..] == ["c"];
    assert ["c"][1..] == [];
    assert Assign(o1, "c", Num(4)) == ExampleMerged;
  }

  /** `{a: 1, b: 2}` merged with `{b: 3, c: 4}` is `{a: 1, b: 3, c: 4}`, keys in that order. */
  lemma MergeExample()
    ensures MergeObjects(ExampleDefaults, Obj(ExampleOverride)) == ExampleMerged
  {
    DistinctExampleKeys();
    assert WellFormed(ExampleDefaults);
    CopyAllRebuilds(ExampleDefaults);
    ExampleOverlay();
  }
}
