/**
 * The deduplication index `handleUnique` (build/utils.js, src/utils.ts).
 *
 * The closure holds `map`, the subkeys seen per key, and `obj`, the values collected
 * per key. Its one operation, `add(key, subkey, getValue)`, calls `getValue` only for a
 * (key, subkey) pair it has not seen, and keeps the value only when it is truthy.
 * `getValue` is represented by what it would produce when invoked (`Supplied`); the
 * returned `invoked` flag says whether it was.
 */
module Unique {
  import opened Types

  /** The outcome of invoking `getValue`: a truthy value, a falsy one, or an exception. */
  datatype Supplied<T> = Value(value: T) | Nothing | Throws

  /** The closure state: `map` as `seen`, `obj` as `obj`. */
  datatype Index<K, T> = Index(seen: map<string, set<K>>, obj: Ordered<seq<T>>)

  /** One call of `add`. */
  datatype Call<K, T> = Call(key: string, subkey: K, out: Supplied<T>)

  function Empty<K, T>(): Index<K, T> {
    Index(map[], EmptyOrdered())
  }

  /** What every sequence of calls keeps: the keys of `obj` are exactly those of `map`,
      and no key holds more values than it has distinct subkeys. */
  ghost predicate Consistent<K, T>(ix: Index<K, T>) {
    && ix.obj.Valid()
    && ix.obj.values.Keys == ix.seen.Keys
    && forall k :: k in ix.seen ==> |ix.obj.values[k]| <= |ix.seen[k]|
  }

  /** The pair has not been seen: `isUnique` in the source. */
  predicate IsNew<K(==), T>(ix: Index<K, T>, key: string, subkey: K) {
    key !in ix.seen || subkey !in ix.seen[key]
  }

  /** The state after `add(key, subkey, getValue)`, where `out` is what `getValue` produces. */
  function Apply<K(==), T>(ix: Index<K, T>, key: string, subkey: K, out: Supplied<T>): Index<K, T> {
    if !IsNew(ix, key, subkey) then ix
    else
      var seen := ix.seen[key := (if key in ix.seen then ix.seen[key] else {}) + {subkey}];
      Index(seen, Collect(ix.obj, key, out))
  }

  /** What a new pair does to `obj`: the key gets a list if it has none, and a truthy
      value is appended to it. */
  function Collect<T>(obj: Ordered<seq<T>>, key: string, out: Supplied<T>): (r: Ordered<seq<T>>)
    ensures obj.Valid() ==> r.Valid()
    ensures r.values.Keys == obj.values.Keys + {key}
    ensures obj.keys <= r.keys
    ensures r.values[key] == (if key in obj.values then obj.values[key] else []) + (if out.Value? then [out.value] else [])
    ensures forall k :: k in obj.values && k != key ==> r.values[k] == obj.values[k]
  {
    var o := if key in obj.values then obj else obj.Set(key, []);
    if out.Value? then o.Set(key, o.values[key] + [out.value]) else o
  }

  /** A sequence of calls, in order. */
  function ApplyAll<K(==), T>(ix: Index<K, T>, calls: seq<Call<K, T>>): Index<K, T> {
    if calls == [] then ix
    else
      var c := calls[|calls| - 1];
      Apply(ApplyAll(ix, calls[..|calls| - 1]), c.key, c.subkey, c.out)
  }

  lemma EmptyConsistent<K, T>()
    ensures Consistent(Empty<K, T>())
  {
  }

  /** A call with a pair already seen changes neither `map` nor `obj`. */
  lemma ApplySeenIsNoOp<K, T>(ix: Index<K, T>, key: string, subkey: K, out: Supplied<T>)
    requires !IsNew(ix, key, subkey)
    ensures Apply(ix, key, subkey, out) == ix
  {
  }

  /** A first-seen pair is recorded whatever `getValue` produced, `obj[key]` exists
      afterwards, and it gains exactly the truthy value, at its end. */
  lemma ApplyNewPair<K, T>(ix: Index<K, T>, key: string, subkey: K, out: Supplied<T>)
    requires Consistent(ix)
    requires IsNew(ix, key, subkey)
    ensures var r := Apply(ix, key, subkey, out);
      var before := if key in ix.obj.values then ix.obj.values[key] else [];
      && key in r.seen && r.seen[key] == (if key in ix.seen then ix.seen[key] else {}) + {subkey}
      && key in r.obj.values
      && r.obj.values[key] == (if out.Value? then before + [out.value] else before)
  {
  }

  /** A call touches only its own key: other keys' subkeys and lists are unchanged, and
      the iteration order of `obj` only gains `key` at its end. */
  lemma ApplyTouchesOnlyKey<K, T>(ix: Index<K, T>, key: string, subkey: K, out: Supplied<T>, other: string)
    requires Consistent(ix)
    requires other != key
    ensures var r := Apply(ix, key, subkey, out);
      && (other in r.seen <==> other in ix.seen)
      && (other in ix.seen ==> r.seen[other] == ix.seen[other] && r.obj.values[other] == ix.obj.values[other])
      && ix.obj.keys <= r.obj.keys
  {
  }

  /** One call keeps the index consistent. */
  lemma ApplyConsistent<K, T>(ix: Index<K, T>, key: string, subkey: K, out: Supplied<T>)
    requires Consistent(ix)
    ensures Consistent(Apply(ix, key, subkey, out))
  {
    if IsNew(ix, key, subkey) {
      var r := Apply(ix, key, subkey, out);
      var prior := if key in ix.seen then ix.seen[key] else {};
      var before := if key in ix.obj.values then ix.obj.values[key] else [];
      assert |prior + {subkey}| == |prior| + 1;
      assert |before| <= |prior|;
      assert r.seen.Keys == ix.seen.Keys + {key};
      ApplyNewPair(ix, key, subkey, out);
      forall k | k in r.seen
        ensures |r.obj.values[k]| <= |r.seen[k]|
      {
        if k != key {
          ApplyTouchesOnlyKey(ix, key, subkey, out, k);
        }
      }
    }
  }




  /** Any sequence of calls keeps the index consistent: in particular the keys of `obj`
      are those of `map`, and `|obj[k]|` never exceeds the number of subkeys seen for `k`. */
  lemma {:induction false} ApplyAllConsistent<K, T>(ix: Index<K, T>, calls: seq<Call<K, T>>)
    requires Consistent(ix)
    ensures Consistent(ApplyAll(ix, calls))
  {
    if calls != [] {
      var c := calls[|calls| - 1];
      ApplyAllConsistent(ix, calls[..|calls| - 1]);
      ApplyConsistent(ApplyAll(ix, calls[..|calls| - 1]), c.key, c.subkey, c.out);
    }
  }

  /** Values once collected stay where they are: each list of `obj` only grows at its end,
      so the first supplied value is never replaced. */
  lemma {:induction false} ApplyAllKeepsCollected<K, T>(ix: Index<K, T>, calls: seq<Call<K, T>>, k: string)
    requires Consistent(ix)
    requires k in ix.obj.values
    ensures var r := ApplyAll(ix, calls);
      k in r.obj.values && k in r.seen && ix.obj.values[k] <= r.obj.values[k] && ix.seen[k] <= r.seen[k]
  {
    if calls != [] {
      var prev := calls[..|calls| - 1];
      var c := calls[|calls| - 1];
      ApplyAllKeepsCollected(ix, prev, k);
      ApplyAllConsistent(ix, prev);
      var mid := ApplyAll(ix, prev);
      if c.key != k {
        ApplyTouchesOnlyKey(mid, c.key, c.subkey, c.out, k);
      } else if IsNew(mid, c.key, c.subkey) {
        ApplyNewPair(mid, c.key, c.subkey, c.out);
      }
    }
  }

  /**
   * One `handleUnique()` instance. The fields are the closure's `map` (`seen`) and
   * `obj` (its key order `keys` and its lists `lists`).
   */
  class UniqueIndex<K(==), T> {
    var seen: map<string, set<K>>
    var keys: seq<string>
    var lists: map<string, seq<T>>

    function State(): Index<K, T>
      reads this
    {
      Index(seen, Ordered(keys, lists))
    }

    ghost predicate Valid()
      reads this
    {
      Consistent(State())
    }

    /** `handleUnique()`: an empty `map` and an empty `obj`. */
    constructor ()
      ensures Valid() && State() == Empty()
    {
      seen := map[];
      keys := [];
      lists := map[];
    }

    /** `add(key, subkey, getValue)`, with `out` what `getValue()` produces if invoked. */
    method Add(key: string, subkey: K, out: Supplied<T>) returns (invoked: bool)
      requires Valid()
      modifies this
      ensures Valid()
      ensures invoked == IsNew(old(State()), key, subkey)
      ensures State() == Apply(old(State()), key, subkey, out)
    {
      ghost var ix := State();
      ApplyConsistent(ix, key, subkey, out);
      var isUnique := false;
      if key in seen {
        var subkeys := seen[key];
        if subkey !in subkeys {
          seen := seen[key := subkeys + {subkey}];
          isUnique := true;
        }
      } else {
        isUnique := true;
        seen := seen[key := {subkey}];
      }
      assert isUnique == IsNew(ix, key, subkey);
      if isUnique {
        if key !in lists {
          keys := keys + [key];
          lists := lists[key := []];
        }
        if out.Value? {
          lists := lists[key := lists[key] + [out.value]];
        }
        assert Ordered(keys, lists) == Collect(ix.obj, key, out);
      }
      invoked := isUnique;
    }
  }
}
