/**
 * Records shared by the pipeline stages of build/main.js.
 */
module Types {

  /** One phone-number format of a region: a digit-mask template, the number length it
      was registered for, and the slot of the interning table (-1 until interned). */
  datatype FormatEntry = FormatEntry(format: string, length: nat, index: int)

  /** One slot of the interning table `formatsList`. */
  datatype Slot = Slot(format: string, repeatingTimes: nat)

  /** A JavaScript object used as a dictionary with non-numeric string keys: its keys
      iterate (`for ... in`) in insertion order. */
  datatype Ordered<V> = Ordered(keys: seq<string>, values: map<string, V>) {

    /** The keys are distinct and are exactly the keys that have a value. */
    ghost predicate Valid() {
      && (forall i, j :: 0 <= i < j < |keys| ==> keys[i] != keys[j])
      && (forall k :: k in values <==> k in keys)
    }

    /** `obj[k] = v`: a new key goes to the end of the iteration order, an existing
        key keeps its place. */
    function Set(k: string, v: V): (r: Ordered<V>)
      ensures Valid() ==> r.Valid()
      ensures r.values == values[k := v]
      ensures |r.keys| == if k in values then |keys| else |keys| + 1
      ensures keys <= r.keys
    {
      if k in values then Ordered(keys, values[k := v]) else Ordered(keys + [k], values[k := v])
    }
  }

  function EmptyOrdered<V>(): (r: Ordered<V>)
    ensures r.Valid() && r.keys == [] && r.values == map[]
  {
    Ordered([], map[])
  }

  /** `for (const k of keys) obj[k] = f(obj[k])`. */
  function MapValues<V>(t: Ordered<V>, keys: seq<string>, f: V -> V): (r: Ordered<V>)
    requires forall k :: k in keys ==> k in t.values
    ensures t.values.Keys <= r.values.Keys
  {
    if keys == [] then t
    else
      var o := MapValues(t, keys[..|keys| - 1], f);
      var k := keys[|keys| - 1];
      o.Set(k, f(o.values[k]))
  }

  /** Rewriting distinct keys keeps the iteration order and rewrites each of them once. */
  lemma {:induction false} MapValuesSpec<V>(t: Ordered<V>, keys: seq<string>, f: V -> V)
    requires t.Valid()
    requires forall i, j :: 0 <= i < j < |keys| ==> keys[i] != keys[j]
    requires forall k :: k in keys ==> k in t.values
    ensures MapValues(t, keys, f).Valid()
    ensures MapValues(t, keys, f).keys == t.keys
    ensures MapValues(t, keys, f).values.Keys == t.values.Keys
    ensures forall k :: k in t.values ==> MapValues(t, keys, f).values[k] == if k in keys then f(t.values[k]) else t.values[k]
  {
    if keys != [] {
      var prev := keys[..|keys| - 1];
      var k := keys[|keys| - 1];
      MapValuesSpec(t, prev, f);
      assert k !in prev by {
        forall i | 0 <= i < |prev|
          ensures prev[i] != k
        {
        }
      }
      var o := MapValues(t, prev, f);
      var r := MapValues(t, keys, f);
      assert r == o.Set(k, f(t.values[k]));
      forall j | j in t.values
        ensures r.values[j] == if j in keys then f(t.values[j]) else t.values[j]
      {
        if j != k {
          assert (j in keys) == (j in prev);
        }
      }
    }
  }
}
