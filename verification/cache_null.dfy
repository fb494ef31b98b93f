/**
  CacheNull: a store that keeps nothing. Its methods carry a `K` suffix and do not
  override CacheAbstract's `get`/`store`/... , so only these constant answers are
  modelled; none of them takes or changes any state.
 */
module NullStore {
  import opened Wrappers
  import opened Php
  import opened Keys
  import opened Oracles
  import opened RamStore

  /** `getK($k)`: always NotCached. */
  function GetK(k: Key): (r: Result<Value>)
    ensures r.Err? && r.error == NotCached
  {
    Err(NotCached)
  }

  /** `incrementK($value, $k, $default)`: the default, whatever the value. */
  function IncrementK(value: int, k: Key, default: int): (n: int)
    ensures n == default
  {
    default
  }

  /** `storeK`, `deleteK`, `clean`, `clear`: report success and keep nothing. */
  function StoreK(data: PhpValue, k: Key, lifetime: int): (b: bool)
    ensures b
  {
    true
  }

  function DeleteK(k: Key): (b: bool)
    ensures b
  {
    true
  }

  function Clean(base: PhpValue, id: PhpValue): (b: bool)
    ensures b
  {
    true
  }

  function Clear(): (b: bool)
    ensures b
  {
    true
  }

  /** `startK`: never a hit, and nothing is opened. */
  function StartK(k: Key, lifetime: int, printIt: bool, fail: bool): (b: bool)
    ensures !b
  {
    false
  }

  /** `end()`: the empty string. */
  function End(printIt: bool): (s: string)
    ensures s == ""
  {
    ""
  }

  /** The null store reads like a disabled RAM store: every read misses and
      `increment` returns the default without storing it. They differ on `store`,
      which the disabled RAM store reports as false and the null store as true. */
  lemma NullIsDisabledRam(env: Env, r: Ram, k: Key, value: int, default: int, data: PhpValue, lifetime: int)
    requires !r.enabled
    ensures Get(env, r, k) == GetK(k)
    ensures Increment(env, r, value, k, default) == Step(r, Ok(IncrementK(value, k, default)))
    ensures Store(env, r, Plain(data), k, lifetime) == Step(r, Ok(!StoreK(data, k, lifetime)))
  {
  }

  /** Storing into the null store and reading back still misses. */
  lemma NullForgets(k: Key, data: PhpValue)
    ensures StoreK(data, k, 0) && GetK(k) == Err(NotCached)
  {
  }
}
