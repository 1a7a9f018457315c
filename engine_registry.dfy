/**
 * The engine registry of services/engineRegistry.js: one module-level `Map`
 * from question id to engine, read and overwritten by key.
 */
module EngineRegistry {
  import opened Wrappers

  /** One change to the registry. */
  datatype Op<K, E> = SetOp(key: K, engine: E) | RemoveOp(key: K)

  /** `engines.get(key)`: the stored engine, or `undefined` as `None`. */
  function Lookup<K, E>(engines: map<K, E>, key: K): (r: Option<E>)
    ensures r.Some? <==> key in engines
    ensures r.Some? ==> r.value == engines[key]
  {
    if key in engines then Some(engines[key]) else None
  }

  /** The map after one change: `set` overwrites, `delete` drops the key. */
  function Apply<K, E>(engines: map<K, E>, op: Op<K, E>): map<K, E> {
    match op
    case SetOp(key, engine) => engines[key := engine]
    case RemoveOp(key) => engines - {key}
  }

  /** The map after a sequence of changes, oldest first. */
  function Replay<K, E>(engines: map<K, E>, ops: seq<Op<K, E>>): map<K, E>
    decreases |ops|
  {
    if ops == [] then engines
    else Apply(Replay(engines, ops[..|ops| - 1]), ops[|ops| - 1])
  }

  /**
   * Scanning the changes from the newest: the engine of the last `set` of
   * `key`, nothing if a `delete` of it came later, `initial` if neither.
   */
  function LastWrite<K(==), E>(ops: seq<Op<K, E>>, key: K, initial: Option<E>): Option<E>
    decreases |ops|
  {
    if ops == [] then initial
    else
      var op := ops[|ops| - 1];
      if op.key != key then LastWrite(ops[..|ops| - 1], key, initial)
      else if op.SetOp? then Some(op.engine)
      else None
  }

  /** `set` stores the engine under its key and changes no other key. */
  lemma SetMeaning<K, E>(engines: map<K, E>, key: K, engine: E, other: K)
    ensures Lookup(Apply(engines, SetOp(key, engine)), key) == Some(engine)
    ensures other != key ==> Lookup(Apply(engines, SetOp(key, engine)), other) == Lookup(engines, other)
  {
  }

  /** `delete` leaves the key absent and changes no other key; on an absent key it changes nothing. */
  lemma RemoveMeaning<K, E>(engines: map<K, E>, key: K, other: K)
    ensures Lookup(Apply(engines, RemoveOp(key)), key).None?
    ensures other != key ==> Lookup(Apply(engines, RemoveOp(key)), other) == Lookup(engines, other)
    ensures key !in engines ==> Apply(engines, RemoveOp(key)) == engines
  {
  }

  /** After any changes, `get` gives the engine most recently set under the key, unless it was removed since. */
  lemma {:induction false} ReplayLastWrite<K, E>(engines: map<K, E>, ops: seq<Op<K, E>>, key: K)
    ensures Lookup(Replay(engines, ops), key) == LastWrite(ops, key, Lookup(engines, key))
    decreases |ops|
  {
    if ops != [] {
      ReplayLastWrite(engines, ops[..|ops| - 1], key);
    }
  }

  /** Setting a key twice keeps only the second engine; the first is dropped without being destroyed. */
  lemma SetOverwrites<K, E>(engines: map<K, E>, key: K, first: E, second: E)
    ensures Replay(engines, [SetOp(key, first), SetOp(key, second)]) == Apply(engines, SetOp(key, second))
  {
    var ops := [SetOp(key, first), SetOp(key, second)];
    assert ops[..1][..0] == [];
    assert Replay(engines, ops[..1]) == engines[key := first];
    assert ops[1] == SetOp(key, second);
    assert engines[key := first][key := second] == engines[key := second];
  }

  /** The module-level `engines` map and its three exported functions. */
  class Registry<K(==), E> {
    var engines: map<K, E>

    constructor ()
      ensures engines == map[]
    {
      engines := map[];
    }

    /** `getEngine`. */
    method GetEngine(key: K) returns (r: Option<E>)
      ensures r == Lookup(engines, key)
    {
      if key in engines {
        r := Some(engines[key]);
      } else {
        r := None;
      }
    }

    /** `setEngine`: overwrites, and does not destroy the engine it replaces. */
    method SetEngine(key: K, engine: E)
      modifies this
      ensures engines == Apply(old(engines), SetOp(key, engine))
    {
      engines := engines[key := engine];
    }

    /** `removeEngine`. */
    method RemoveEngine(key: K)
      modifies this
      ensures engines == Apply(old(engines), RemoveOp(key))
    {
      engines := engines - {key};
    }
  }
}
