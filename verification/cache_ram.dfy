/**
  CacheRAM: the in-process store. Values live in a two-level map: the first level is
  indexed by namespace ++ base ++ id (the "bucket"), the second by the normalised sub.
 */
module RamStore {
  import opened Wrappers
  import opened Php
  import opened Keys
  import opened Entries
  import opened Oracles

  /** What a slot holds: a plain PHP value (a version counter, user data) or a
      serialized CacheData, kept here as the entry itself. */
  datatype Value = Plain(v: PhpValue) | Stored(entry: Entry)

  /** The store: its map, the `enabled` flag it shares with the engine, and the
      namespace prefix. CacheRAM never declares `$namespace`, so PHP reads it as null
      and the prefix is the empty string in practice. */
  datatype Ram = Ram(storage: map<string, map<string, Value>>, enabled: bool, ns: string)

  /** The store after an operation together with its outcome; an exception carries
      the store as the operation left it. */
  datatype Step<+T> = Step(ram: Ram, res: Result<T>)

  /** A fresh, enabled, empty store. */
  function EmptyRam(): Ram {
    Ram(map[], true, "")
  }

  /** `checkValidArgs`: array-valued base or id are rejected. */
  predicate ValidArgs(k: Key) {
    !k.base.Arr? && !k.id.Arr?
  }

  /** The first-level index: string concatenation of namespace, base and id. */
  function BucketIndex(ns: string, base: PhpValue, id: PhpValue): string {
    ns + ToStr(base) + ToStr(id)
  }

  /** The second-level index: a string sub is used as is, anything else by the md5
      of its serialization. */
  function SubIndex(env: Env, k: Key): string {
    if k.sub.Str? then k.sub.s else env.md5(env.serialize(k.sub))
  }

  /** What the slot of `k` holds, ignoring the `enabled` flag. */
  function At(env: Env, r: Ram, k: Key): Option<Value> {
    var idx := BucketIndex(r.ns, k.base, k.id);
    var sub := SubIndex(env, k);
    if idx in r.storage && sub in r.storage[idx] then Some(r.storage[idx][sub]) else None
  }

  /** Two keys address the same slot. */
  predicate SameSlot(env: Env, ns: string, k1: Key, k2: Key) {
    BucketIndex(ns, k1.base, k1.id) == BucketIndex(ns, k2.base, k2.id) && SubIndex(env, k1) == SubIndex(env, k2)
  }

  /** The map with one slot set. */
  function Put(env: Env, r: Ram, k: Key, v: Value): (r': Ram)
    ensures At(env, r', k) == Some(v)
    ensures forall k2 :: !SameSlot(env, r.ns, k, k2) ==> At(env, r', k2) == At(env, r, k2)
    ensures r'.enabled == r.enabled && r'.ns == r.ns
  {
    var idx := BucketIndex(r.ns, k.base, k.id);
    var bucket := if idx in r.storage then r.storage[idx] else map[];
    r.(storage := r.storage[idx := bucket[SubIndex(env, k) := v]])
  }

  /** `get($k)`: the stored value, null included (`array_key_exists`), or NotCached
      when the slot is empty or the store is disabled. */
  function Get(env: Env, r: Ram, k: Key): (res: Result<Value>)
    ensures !r.enabled ==> res == Err(NotCached)
    ensures r.enabled && !ValidArgs(k) ==> res == Err(InvalidData)
    ensures r.enabled && ValidArgs(k) ==> (res.Ok? <==> At(env, r, k).Some?)
    ensures res.Ok? ==> At(env, r, k) == Some(res.value)
    ensures res.Err? ==> res.error == NotCached || res.error == InvalidData
  {
    if !r.enabled then Err(NotCached)
    else if !ValidArgs(k) then Err(InvalidData)
    else
      match At(env, r, k)
      case Some(v) => Ok(v)
      case None => Err(NotCached)
  }

  /** `store($data, $k)`: true and the slot set when enabled; false and no change
      when disabled. The lifetime is ignored by this store. */
  function Store(env: Env, r: Ram, v: Value, k: Key, lifetime: int): (s: Step<bool>)
    ensures !r.enabled ==> s == Step(r, Ok(false))
    ensures r.enabled && !ValidArgs(k) ==> s == Step(r, Err(InvalidData))
    ensures r.enabled && ValidArgs(k) ==> s.res == Ok(true) && At(env, s.ram, k) == Some(v)
    ensures forall k2 :: !SameSlot(env, r.ns, k, k2) ==> At(env, s.ram, k2) == At(env, r, k2)
    ensures s.ram.enabled == r.enabled && s.ram.ns == r.ns
  {
    if !r.enabled then Step(r, Ok(false))
    else if !ValidArgs(k) then Step(r, Err(InvalidData))
    else Step(Put(env, r, k, v), Ok(true))
  }

  /** `delete($k)`: empties exactly that slot and reports true. It does not look at
      the `enabled` flag. */
  function Delete(env: Env, r: Ram, k: Key): (s: Step<bool>)
    ensures !ValidArgs(k) ==> s == Step(r, Err(InvalidData))
    ensures ValidArgs(k) ==> s.res == Ok(true) && At(env, s.ram, k) == None
    ensures forall k2 :: !SameSlot(env, r.ns, k, k2) ==> At(env, s.ram, k2) == At(env, r, k2)
    ensures s.ram.enabled == r.enabled && s.ram.ns == r.ns
  {
    if !ValidArgs(k) then Step(r, Err(InvalidData))
    else
      var idx := BucketIndex(r.ns, k.base, k.id);
      if idx in r.storage then
        Step(r.(storage := r.storage[idx := r.storage[idx] - {SubIndex(env, k)}]), Ok(true))
      else Step(r, Ok(true))
  }

  /** `cleanP($base, $id)`: drops the whole bucket, every sub under that base and id;
      other buckets keep their slots. Always reports true. */
  function CleanP(env: Env, r: Ram, base: PhpValue, id: PhpValue): (r': Ram)
    ensures forall k: Key :: BucketIndex(r.ns, k.base, k.id) == BucketIndex(r.ns, base, id) ==> At(env, r', k) == None
    ensures forall k: Key :: BucketIndex(r.ns, k.base, k.id) != BucketIndex(r.ns, base, id) ==> At(env, r', k) == At(env, r, k)
    ensures r'.enabled == r.enabled && r'.ns == r.ns
  {
    r.(storage := r.storage - {BucketIndex(r.ns, base, id)})
  }

  /** `clear()`: every slot emptied. Always reports true. */
  function Clear(env: Env, r: Ram): (r': Ram)
    ensures forall k :: At(env, r', k) == None
    ensures r'.enabled == r.enabled && r'.ns == r.ns
  {
    r.(storage := map[])
  }

  /** The integer a stored value stands for on the left of `+=`. A serialized
      CacheData is text starting with "O:", which PHP 7 reads as 0. */
  function NumberOf(x: Value): Result<int> {
    match x
    case Plain(p) => ToNumber(p)
    case Stored(_) => Ok(0)
  }

  /** `increment($value, $k, $default)`: an empty slot, or one holding null, is set
      to the default and the default is returned (the increment is not applied);
      otherwise the value is added and the sum stored and returned. Disabled, it
      returns the default and stores nothing. */
  function Increment(env: Env, r: Ram, value: int, k: Key, default: int): (s: Step<int>)
    ensures !r.enabled ==> s == Step(r, Ok(default))
    ensures r.enabled && !ValidArgs(k) ==> s == Step(r, Err(InvalidData))
    ensures r.enabled && ValidArgs(k) && (At(env, r, k) == None || At(env, r, k) == Some(Plain(Null))) ==>
              s.res == Ok(default) && At(env, s.ram, k) == Some(Plain(Int(default)))
    ensures r.enabled && ValidArgs(k) && At(env, r, k).Some? && At(env, r, k).value.Plain? && At(env, r, k).value.v.Int? ==>
              s.res == Ok(At(env, r, k).value.v.i + value) && At(env, s.ram, k) == Some(Plain(Int(At(env, r, k).value.v.i + value)))
    ensures s.res.Ok? ==> At(env, s.ram, k) == (if r.enabled then Some(Plain(Int(s.res.value))) else At(env, r, k))
    ensures forall k2 :: !SameSlot(env, r.ns, k, k2) ==> At(env, s.ram, k2) == At(env, r, k2)
    ensures s.ram.enabled == r.enabled && s.ram.ns == r.ns
  {
    if !r.enabled then Step(r, Ok(default))
    else if !ValidArgs(k) then Step(r, Err(InvalidData))
    else
      match At(env, r, k)
      case None => Step(Put(env, r, k, Plain(Int(default))), Ok(default))
      case Some(x) =>
        if x == Plain(Null) then Step(Put(env, r, k, Plain(Int(default))), Ok(default))
        else
          match NumberOf(x)
          case Ok(n) => Step(Put(env, r, k, Plain(Int(n + value))), Ok(n + value))
          case Err(e) => Step(r, Err(e))
  }

  /** `hashKey($k)`: namespace, base, id and the serialized sub, concatenated. */
  function HashKey(env: Env, r: Ram, k: Key): (h: string)
    ensures h == BucketIndex(r.ns, k.base, k.id) + env.serialize(k.sub)
  {
    r.ns + ToStr(k.base) + ToStr(k.id) + env.serialize(k.sub)
  }

  function Enable(r: Ram): (r': Ram)
    ensures r'.enabled && r'.storage == r.storage && r'.ns == r.ns
  {
    r.(enabled := true)
  }

  /** `disable()`: the map is kept but every read now misses. */
  function Disable(env: Env, r: Ram): (r': Ram)
    ensures !r'.enabled && r'.storage == r.storage && r'.ns == r.ns
    ensures forall k :: Get(env, r', k) == Err(NotCached)
  {
    r.(enabled := false)
  }

  /** `checkValidArgs` guards every keyed operation except `cleanP`: with an array
      base or id, `get`, `store`, `delete` and `increment` all throw
      CacheInvalidDataException and leave the store as it was. */
  lemma InvalidArgsRejected(env: Env, r: Ram, k: Key, v: Value, value: int, default: int, lifetime: int)
    requires r.enabled && !ValidArgs(k)
    ensures Get(env, r, k) == Err(InvalidData)
    ensures Store(env, r, v, k, lifetime) == Step(r, Err(InvalidData))
    ensures Delete(env, r, k) == Step(r, Err(InvalidData))
    ensures Increment(env, r, value, k, default) == Step(r, Err(InvalidData))
  {
  }

  /** Reading a slot right after writing it returns what was written, null included. */
  lemma GetAfterStore(env: Env, r: Ram, v: Value, k: Key, lifetime: int)
    requires r.enabled && ValidArgs(k)
    ensures Get(env, Store(env, r, v, k, lifetime).ram, k) == Ok(v)
  {
  }

  /** `invalidate` on a key never seen sets its version to 0, not 1. */
  lemma IncrementFreshGivesDefault(env: Env, r: Ram, k: Key)
    requires r.enabled && ValidArgs(k) && At(env, r, k) == None
    ensures Increment(env, r, 1, k, 0).res == Ok(0)
  {
  }

  /** Incrementing a slot that holds a serialized entry replaces the entry by the
      integer `value`: the entry is gone from the store. */
  lemma IncrementOverwritesEntry(env: Env, r: Ram, k: Key, e: Entry, value: int)
    requires r.enabled && ValidArgs(k) && At(env, r, k) == Some(Stored(e))
    ensures Increment(env, r, value, k, 0).res == Ok(value)
    ensures At(env, Increment(env, r, value, k, 0).ram, k) == Some(Plain(Int(value)))
  {
  }
}
