/** CacheKey: the (base, id, sub) value object every cache operation is keyed by. */
module Keys {
  import opened Php

  /** `base` and `id` are normally strings or integers; `sub` may be any value. */
  datatype Key = Key(base: PhpValue, id: PhpValue, sub: PhpValue)

  /** `new CacheKey($base, $id, $sub)`. */
  function NewKey(base: PhpValue, id: PhpValue, sub: PhpValue): (k: Key)
    ensures GetBase(k) == base && GetId(k) == id && GetSub(k) == sub
  {
    Key(base, id, sub)
  }

  /** `new CacheKey($base, $id)`: `sub` defaults to the empty string. */
  function NewKey2(base: PhpValue, id: PhpValue): (k: Key)
    ensures GetBase(k) == base && GetId(k) == id && GetSub(k) == Str("")
  {
    NewKey(base, id, Str(""))
  }

  /** Each getter reads what its setter writes: setting the value just read gives
      the same key back. */
  function GetBase(k: Key): (b: PhpValue)
    ensures SetBase(k, b) == k
  {
    k.base
  }

  function GetId(k: Key): (i: PhpValue)
    ensures SetId(k, i) == k
  {
    k.id
  }

  function GetSub(k: Key): (s: PhpValue)
    ensures SetSub(k, s) == k
  {
    k.sub
  }

  /** Each setter replaces its own field and keeps the other two. */
  function SetBase(k: Key, base: PhpValue): (k': Key)
    ensures k'.base == base && k'.id == k.id && k'.sub == k.sub
  {
    k.(base := base)
  }

  function SetId(k: Key, id: PhpValue): (k': Key)
    ensures k'.id == id && k'.base == k.base && k'.sub == k.sub
  {
    k.(id := id)
  }

  function SetSub(k: Key, sub: PhpValue): (k': Key)
    ensures k'.sub == sub && k'.base == k.base && k'.id == k.id
  {
    k.(sub := sub)
  }

  /** The text `getHash` digests: the three parts glued together with no separator. */
  function HashInput(k: Key): string {
    ToStr(k.base) + ToStr(k.id) + ToStr(k.sub)
  }

  /** `getHash()`: the md5 of the concatenated parts; `md5` is a parameter. */
  function GetHash(md5: string -> string, k: Key): (h: string)
    ensures h == md5(ToStr(k.base) + ToStr(k.id) + ToStr(k.sub))
  {
    md5(HashInput(k))
  }

  /** The hash sees only the concatenation, so keys that glue to the same text
      hash alike whatever md5 is. */
  lemma HashSeesOnlyConcatenation(md5: string -> string, k1: Key, k2: Key)
    requires HashInput(k1) == HashInput(k2)
    ensures GetHash(md5, k1) == GetHash(md5, k2)
  {
  }

  /** A witness: ("ab", "c") and ("a", "bc") are different keys with the same hash. */
  lemma DistinctKeysSameHash(md5: string -> string)
    ensures Key(Str("ab"), Str("c"), Str("")) != Key(Str("a"), Str("bc"), Str(""))
    ensures GetHash(md5, Key(Str("ab"), Str("c"), Str(""))) == GetHash(md5, Key(Str("a"), Str("bc"), Str("")))
  {
    assert "ab" + "c" + "" == "a" + "bc" + "";
  }
}
