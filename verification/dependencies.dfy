/**
  The store-facing half of CacheData and CacheAbstract: batch reads (`getMulti`),
  the dependency hash and the freshness check, fetching an entry (`getData`),
  persisting one (`storeData`) and invalidation.

  The "version" of a dependency is whatever the store holds under its key: an
  integer counter bumped by `invalidate`, or, for a nested scope's key, that scope's
  serialized entry.
 */
module Deps {
  import opened Wrappers
  import opened Php
  import opened Keys
  import opened Entries
  import opened Oracles
  import opened RamStore

  /** The `$callback` given to `getMulti`: none, or `CacheData::dependencyInit`,
      which answers a miss with `increment(0, $k, 0)`. */
  datatype Handler = NoHandler | DependencyInit

  /** How a value reads inside `implode`: plain values by PHP's string conversion,
      entries by their serialized text. */
  function ValueText(env: Env, x: Value): string {
    match x
    case Plain(p) => ToStr(p)
    case Stored(e) => env.serializeEntry(e)
  }

  /** `implode($values)`: omitted indices contribute nothing. */
  function Implode(env: Env, vals: seq<Option<Value>>): string {
    if |vals| == 0 then ""
    else (if vals[0].Some? then ValueText(env, vals[0].value) else "") + Implode(env, vals[1..])
  }

  /** The current contents of the slots of `ks`, in order. */
  function Versions(env: Env, r: Ram, ks: seq<Key>): (vs: seq<Option<Value>>)
    ensures |vs| == |ks|
    ensures forall i :: 0 <= i < |ks| ==> vs[i] == At(env, r, ks[i])
  {
    seq(|ks|, i requires 0 <= i < |ks| => At(env, r, ks[i]))
  }

  /** Every key of `ks` has its slot filled. */
  predicate AllPresent(env: Env, r: Ram, ks: seq<Key>) {
    forall i :: 0 <= i < |ks| ==> At(env, r, ks[i]).Some?
  }

  /** The store only gained version-0 counters in slots of `ks` that were empty. */
  ghost predicate OnlyInitialised(env: Env, r: Ram, r': Ram, ks: seq<Key>) {
    && r'.enabled == r.enabled && r'.ns == r.ns
    && forall k :: At(env, r', k) != At(env, r, k) ==>
         && At(env, r, k) == None
         && At(env, r', k) == Some(Plain(Int(0)))
         && exists i :: 0 <= i < |ks| && SameSlot(env, r.ns, ks[i], k)
  }

  /** One index of `getMulti`. */
  function GetOne(env: Env, r: Ram, k: Key, h: Handler): (s: Step<Option<Value>>)
    ensures h == NoHandler || !r.enabled ==> s.ram == r
    ensures s.res.Err? ==> s.res.error == InvalidData && s.ram == r
    ensures s.res.Ok? && r.enabled ==> s.res.value == At(env, s.ram, k)
    ensures s.res.Ok? && r.enabled && h == DependencyInit ==> s.res.value.Some?
    ensures s.res.Ok? && !r.enabled ==> s.res.value == (if h == NoHandler then None else Some(Plain(Int(0))))
    ensures r.enabled ==> (s.res.Ok? <==> ValidArgs(k))
    ensures OnlyInitialised(env, r, s.ram, [k])
  {
    match Get(env, r, k)
    case Ok(v) => Step(r, Ok(Some(v)))
    case Err(e) =>
      if e != NotCached then Step(r, Err(e))
      else if h == NoHandler then Step(r, Ok(None))
      else
        var inc := Increment(env, r, 0, k, 0);
        match inc.res
        case Ok(n) =>
          assert forall k2 :: At(env, inc.ram, k2) != At(env, r, k2) ==> SameSlot(env, r.ns, [k][0], k2);
          Step(inc.ram, Ok(Some(Plain(Int(n)))))
        case Err(e2) => Step(r, Err(e2))
  }

  lemma OnlyInitialisedTrans(env: Env, r1: Ram, r2: Ram, r3: Ram, k: Key, ks: seq<Key>)
    requires OnlyInitialised(env, r1, r2, [k])
    requires OnlyInitialised(env, r2, r3, ks)
    ensures OnlyInitialised(env, r1, r3, [k] + ks)
  {
    var all := [k] + ks;
    forall k2 | At(env, r3, k2) != At(env, r1, k2)
      ensures At(env, r1, k2) == None && At(env, r3, k2) == Some(Plain(Int(0)))
      ensures exists i :: 0 <= i < |all| && SameSlot(env, r1.ns, all[i], k2)
    {
      if At(env, r2, k2) != At(env, r1, k2) {
        assert SameSlot(env, r1.ns, all[0], k2);
      } else {
        var i :| 0 <= i < |ks| && SameSlot(env, r2.ns, ks[i], k2);
        assert all[i + 1] == ks[i];
      }
    }
  }

  /** `getMulti($keys, $callback)`: one result per index, in order. A missing key is
      left out without a callback and answered by the callback otherwise. With
      `dependencyInit` the store gains a version-0 counter for every missing key
      and nothing else changes. */
  function GetMulti(env: Env, r: Ram, keys: seq<Key>, h: Handler): (s: Step<seq<Option<Value>>>)
    ensures h == NoHandler || !r.enabled ==> s.ram == r
    ensures s.res.Err? ==> s.res.error == InvalidData
    ensures s.res.Ok? ==> |s.res.value| == |keys|
    ensures s.res.Ok? && r.enabled ==> s.res.value == Versions(env, s.ram, keys)
    ensures s.res.Ok? && r.enabled && h == DependencyInit ==> AllPresent(env, s.ram, keys)
    ensures s.res.Ok? && !r.enabled ==> forall i :: 0 <= i < |keys| ==>
              s.res.value[i] == (if h == NoHandler then None else Some(Plain(Int(0))))
    ensures OnlyInitialised(env, r, s.ram, keys)
    decreases |keys|
  {
    if |keys| == 0 then Step(r, Ok([]))
    else
      var first := GetOne(env, r, keys[0], h);
      match first.res
      case Err(e) => Step(first.ram, Err(e))
      case Ok(v) =>
        var rest := GetMulti(env, first.ram, keys[1..], h);
        OnlyInitialisedTrans(env, r, first.ram, rest.ram, keys[0], keys[1..]);
        assert [keys[0]] + keys[1..] == keys;
        match rest.res
        case Err(e) => Step(rest.ram, Err(e))
        case Ok(vs) =>
          GetMultiCons(env, r, first.ram, rest.ram, keys, h, v, vs);
          Step(rest.ram, Ok([v] + vs))
  }

  /** The results of `getMulti` for the first key and for the rest put together:
      the later reads do not disturb the first key's slot, so the answers are still
      the slots' contents. */
  lemma GetMultiCons(env: Env, r: Ram, r1: Ram, r2: Ram, keys: seq<Key>, h: Handler,
                     v: Option<Value>, vs: seq<Option<Value>>)
    requires |keys| > 0 && |vs| == |keys| - 1 && r1.enabled == r.enabled
    requires r.enabled ==> v == At(env, r1, keys[0]) && vs == Versions(env, r2, keys[1..])
    requires r.enabled && h == DependencyInit ==> v.Some? && AllPresent(env, r2, keys[1..])
    requires h == NoHandler || !r.enabled ==> r2 == r1
    requires OnlyInitialised(env, r1, r2, keys[1..])
    requires !r.enabled ==> v == (if h == NoHandler then None else Some(Plain(Int(0))))
    requires !r.enabled ==> forall i :: 0 <= i < |vs| ==> vs[i] == (if h == NoHandler then None else Some(Plain(Int(0))))
    ensures r.enabled ==> [v] + vs == Versions(env, r2, keys)
    ensures r.enabled && h == DependencyInit ==> AllPresent(env, r2, keys)
    ensures !r.enabled ==> forall i :: 0 <= i < |keys| ==>
              ([v] + vs)[i] == (if h == NoHandler then None else Some(Plain(Int(0))))
  {
    if r.enabled {
      assert At(env, r2, keys[0]) == At(env, r1, keys[0]) by {
        if h == DependencyInit && At(env, r2, keys[0]) != At(env, r1, keys[0]) {
          assert false;
        }
      }
      forall i | 1 <= i < |keys| ensures ([v] + vs)[i] == At(env, r2, keys[i]) {
        assert keys[1..][i - 1] == keys[i];
      }
      if h == DependencyInit {
        forall i | 1 <= i < |keys| ensures At(env, r2, keys[i]).Some? {
          assert keys[1..][i - 1] == keys[i];
        }
      }
    }
  }

  /** With every key present, `getMulti` only reads: the result is the slots'
      contents and the store is unchanged, whatever the handler. */
  lemma {:induction false} GetMultiAllPresent(env: Env, r: Ram, keys: seq<Key>, h: Handler)
    requires r.enabled && AllPresent(env, r, keys)
    requires forall i :: 0 <= i < |keys| ==> ValidArgs(keys[i])
    ensures GetMulti(env, r, keys, h) == Step(r, Ok(Versions(env, r, keys)))
    decreases |keys|
  {
    if |keys| > 0 {
      assert ValidArgs(keys[0]) && At(env, r, keys[0]).Some?;
      assert GetOne(env, r, keys[0], h) == Step(r, Ok(At(env, r, keys[0])));
      assert AllPresent(env, r, keys[1..]) by {
        assert forall i :: 0 <= i < |keys[1..]| ==> keys[1..][i] == keys[i + 1];
      }
      GetMultiAllPresent(env, r, keys[1..], h);
      assert Versions(env, r, keys) == [At(env, r, keys[0])] + Versions(env, r, keys[1..]);
    }
  }

  /** `getMulti` only succeeds on keys that pass `checkValidArgs` (when enabled). */
  lemma {:induction false} GetMultiValid(env: Env, r: Ram, keys: seq<Key>, h: Handler)
    requires r.enabled && GetMulti(env, r, keys, h).res.Ok?
    ensures forall i :: 0 <= i < |keys| ==> ValidArgs(keys[i])
    decreases |keys|
  {
    if |keys| > 0 {
      var first := GetOne(env, r, keys[0], h);
      assert first.res.Ok? && first.ram.enabled;
      assert GetMulti(env, first.ram, keys[1..], h).res.Ok?;
      GetMultiValid(env, first.ram, keys[1..], h);
      forall i | 0 <= i < |keys| ensures ValidArgs(keys[i]) {
        if i > 0 {
          assert keys[i] == keys[1..][i - 1];
        }
      }
    }
  }

  /** The text the dependency hash digests, read from the store. */
  function VersionText(env: Env, r: Ram, ks: seq<Key>): string {
    Implode(env, Versions(env, r, ks))
  }

  /** `generateDependenciesHash`: '' without dependencies; otherwise the md5 of the
      concatenated versions, after missing versions were initialised to 0. */
  function GenerateDependenciesHash(env: Env, r: Ram, e: Entry): (s: Step<string>)
    ensures |e.deps| == 0 ==> s == Step(r, Ok(""))
    ensures s.res.Ok? && |e.deps| > 0 && r.enabled ==>
              s.res.value == env.md5(VersionText(env, s.ram, e.deps)) && AllPresent(env, s.ram, e.deps)
    ensures s.res.Err? ==> s.res.error == InvalidData
    ensures OnlyInitialised(env, r, s.ram, e.deps)
  {
    if |e.deps| == 0 then Step(r, Ok(""))
    else
      var g := GetMulti(env, r, e.deps, DependencyInit);
      match g.res
      case Ok(vals) => Step(g.ram, Ok(env.md5(Implode(env, vals))))
      case Err(err) => Step(g.ram, Err(err))
  }

  /** `checkUpdateToDate`: fresh when there are no dependencies (the store is not
      even read), otherwise exactly when a freshly generated hash equals the
      memoised one. */
  function CheckUpdateToDate(env: Env, r: Ram, e: Entry): (s: Step<bool>)
    ensures |e.deps| == 0 ==> s == Step(r, Ok(true))
    ensures s.res.Ok? && |e.deps| > 0 && r.enabled ==>
              (s.res.value <==> env.md5(VersionText(env, s.ram, e.deps)) == e.depsHash)
    ensures s.res.Err? ==> s.res.error == InvalidData
    ensures OnlyInitialised(env, r, s.ram, e.deps)
  {
    if |e.deps| == 0 then Step(r, Ok(true))
    else
      var g := GenerateDependenciesHash(env, r, e);
      match g.res
      case Ok(h) => Step(g.ram, Ok(h == e.depsHash))
      case Err(err) => Step(g.ram, Err(err))
  }

  /** Generating the hash twice in a row gives the same hash and leaves the store
      as the first generation left it. */
  lemma GenerateIdempotent(env: Env, r: Ram, e: Entry)
    requires GenerateDependenciesHash(env, r, e).res.Ok?
    ensures var g := GenerateDependenciesHash(env, r, e);
            GenerateDependenciesHash(env, g.ram, e) == g
  {
    var g := GenerateDependenciesHash(env, r, e);
    if |e.deps| > 0 && r.enabled {
      GetMultiValid(env, r, e.deps, DependencyInit);
      GetMultiAllPresent(env, g.ram, e.deps, DependencyInit);
    }
  }

  /** `updateDependenciesHash`: memoises a freshly generated hash; after it the entry
      is up to date against the store it leaves behind. */
  function UpdateDependenciesHash(env: Env, r: Ram, e: Entry): (s: Step<Entry>)
    ensures s.res.Ok? ==> s.res.value == e.(depsHash := s.res.value.depsHash)
    ensures s.res.Ok? ==> CheckUpdateToDate(env, s.ram, s.res.value) == Step(s.ram, Ok(true))
    ensures s.res.Err? ==> s.res.error == InvalidData
    ensures OnlyInitialised(env, r, s.ram, e.deps)
  {
    var g := GenerateDependenciesHash(env, r, e);
    match g.res
    case Ok(h) =>
      var e' := e.(depsHash := h);
      GenerateIdempotent(env, r, e);
      assert GenerateDependenciesHash(env, g.ram, e') == GenerateDependenciesHash(env, g.ram, e);
      Step(g.ram, Ok(e'))
    case Err(err) => Step(g.ram, Err(err))
  }

  /** `updateDependenciesHashIfNull`: only recomputes when the memoised hash is
      PHP-falsy ('' or '0'). */
  function UpdateDependenciesHashIfNull(env: Env, r: Ram, e: Entry): (s: Step<Entry>)
    ensures Truthy(Str(e.depsHash)) ==> s == Step(r, Ok(e))
    ensures !Truthy(Str(e.depsHash)) ==> s == UpdateDependenciesHash(env, r, e)
  {
    if !Truthy(Str(e.depsHash)) then UpdateDependenciesHash(env, r, e) else Step(r, Ok(e))
  }

  /** `setDependencies($deps, $cache)`: replaces the dependency list and generates a
      hash but throws it away (its comment says it updates the hash). With at least
      one key the memoised hash is cleared to ''; with none it is left as it was.
      The generation still initialises missing versions. */
  function SetDependencies(env: Env, r: Ram, e: Entry, ks: seq<Key>): (s: Step<Entry>)
    ensures s.res.Ok? ==> s.res.value.deps == ks && s.res.value.segments == e.segments && s.res.value.key == e.key
    ensures s.res.Ok? && |ks| > 0 ==> s.res.value.depsHash == ""
    ensures s.res.Ok? && |ks| == 0 ==> s.res.value.depsHash == e.depsHash
    ensures |ks| == 0 ==> s.ram == r && s.res.Ok?
    ensures s.res.Err? ==> s.res.error == InvalidData
    ensures OnlyInitialised(env, r, s.ram, ks)
  {
    var e' := ResetDependencies(e, ks);
    var g := GenerateDependenciesHash(env, r, e');
    match g.res
    case Ok(_) => Step(g.ram, Ok(e'))
    case Err(err) => Step(g.ram, Err(err))
  }

  /** `setDependencies` as its comment describes it: the new list is installed and
      the hash memoised, so the entry is up to date against the store it leaves. */
  function SetDependenciesFixed(env: Env, r: Ram, e: Entry, ks: seq<Key>): (s: Step<Entry>)
    ensures s.res.Ok? ==> s.res.value.deps == ks && s.res.value.segments == e.segments && s.res.value.key == e.key
    ensures s.res.Ok? ==> CheckUpdateToDate(env, s.ram, s.res.value) == Step(s.ram, Ok(true))
    ensures s.res.Err? ==> s.res.error == InvalidData
    ensures OnlyInitialised(env, r, s.ram, ks)
  {
    UpdateDependenciesHash(env, r, ResetDependencies(e, ks))
  }

  /** `CacheData::unserialize`: a stored entry comes back as itself; anything else
      unserializes to `false`, and the method called on it next is a fatal error. */
  function Unserialize(x: Value): (r: Result<Entry>)
    ensures x.Stored? <==> r.Ok?
    ensures r.Ok? ==> r.value == x.entry
  {
    match x
    case Stored(e) => Ok(e)
    case Plain(_) => Err(Fatal(NotAnEntry))
  }

  /** `CacheAbstract::getData($k)`: the stored entry when it is up to date,
      NotCached when it is missing or stale. */
  function BaseGetData(env: Env, r: Ram, k: Key): (s: Step<Entry>)
    ensures s.res.Ok? ==> At(env, r, k) == Some(Stored(s.res.value)) && r.enabled
    ensures s.res.Ok? ==> CheckUpdateToDate(env, r, s.res.value) == Step(s.ram, Ok(true))
    ensures !r.enabled ==> s == Step(r, Err(NotCached))
    ensures r.enabled && !ValidArgs(k) ==> s == Step(r, Err(InvalidData))
    ensures r.enabled && ValidArgs(k) && At(env, r, k) == None ==> s == Step(r, Err(NotCached))
    ensures r.enabled && ValidArgs(k) && At(env, r, k).Some? && At(env, r, k).value.Plain? ==>
              s == Step(r, Err(Fatal(NotAnEntry)))
    ensures r.enabled && ValidArgs(k) && At(env, r, k).Some? && At(env, r, k).value.Stored? ==>
              var e := At(env, r, k).value.entry;
              var c := CheckUpdateToDate(env, r, e);
              && (c.res == Ok(true) ==> s == Step(c.ram, Ok(e)))
              && (c.res == Ok(false) ==> s == Step(c.ram, Err(NotCached)))
              && (c.res.Err? ==> s == Step(c.ram, Err(c.res.error)))
    ensures s.ram.enabled == r.enabled && s.ram.ns == r.ns
    ensures s.res.Err? ==> s.res.error != KeyClash
  {
    match Get(env, r, k)
    case Err(e) => Step(r, Err(e))
    case Ok(x) =>
      match Unserialize(x)
      case Err(e) => Step(r, Err(e))
      case Ok(cd) =>
        var c := CheckUpdateToDate(env, r, cd);
        match c.res
        case Err(e) => Step(c.ram, Err(e))
        case Ok(upToDate) => if upToDate then Step(c.ram, Ok(cd)) else Step(c.ram, Err(NotCached))
  }

  /** `CacheRAM::getData($k)`: like the inherited one, but a stale entry is deleted
      before NotCached is raised. */
  function GetData(env: Env, r: Ram, k: Key): (s: Step<Entry>)
    ensures s.res.Ok? ==> At(env, r, k) == Some(Stored(s.res.value)) && r.enabled
    ensures s.res.Ok? ==> CheckUpdateToDate(env, r, s.res.value) == Step(s.ram, Ok(true))
    ensures !r.enabled ==> s == Step(r, Err(NotCached))
    ensures r.enabled && !ValidArgs(k) ==> s == Step(r, Err(InvalidData))
    ensures r.enabled && ValidArgs(k) && At(env, r, k) == None ==> s == Step(r, Err(NotCached))
    ensures r.enabled && ValidArgs(k) && At(env, r, k).Some? && At(env, r, k).value.Plain? ==>
              s == Step(r, Err(Fatal(NotAnEntry)))
    ensures r.enabled && ValidArgs(k) && At(env, r, k).Some? && At(env, r, k).value.Stored? ==>
              var e := At(env, r, k).value.entry;
              var c := CheckUpdateToDate(env, r, e);
              && (c.res == Ok(true) ==> s == Step(c.ram, Ok(e)))
              && (c.res.Err? ==> s == Step(c.ram, Err(c.res.error)))
              && (c.res == Ok(false) ==>
                    && s.res == Err(NotCached) && At(env, s.ram, k) == None
                    && forall k2 :: !SameSlot(env, r.ns, k, k2) ==> At(env, s.ram, k2) == At(env, c.ram, k2))
    ensures s.ram.enabled == r.enabled && s.ram.ns == r.ns
    ensures s.res.Err? ==> s.res.error != KeyClash
  {
    match Get(env, r, k)
    case Err(e) => Step(r, Err(e))
    case Ok(x) =>
      match Unserialize(x)
      case Err(e) => Step(r, Err(e))
      case Ok(cd) =>
        var c := CheckUpdateToDate(env, r, cd);
        match c.res
        case Err(e) => Step(c.ram, Err(e))
        case Ok(upToDate) =>
          if upToDate then Step(c.ram, Ok(cd))
          else
            // the key passed `checkValidArgs` in `get`, so `delete` succeeds
            Step(Delete(env, c.ram, k).ram, Err(NotCached))
  }

  /** `getData` as evidently intended: a slot that does not hold an entry (say, a
      version counter written by `invalidate`) is a miss rather than a fatal
      error. Everything else is as in `GetData`. */
  function GetDataFixed(env: Env, r: Ram, k: Key): (s: Step<Entry>)
    ensures s.res.Err? ==> s.res.error == NotCached || s.res.error == InvalidData
    ensures r.enabled && ValidArgs(k) && At(env, r, k).Some? && At(env, r, k).value.Plain? ==> s == Step(r, Err(NotCached))
    ensures !(r.enabled && ValidArgs(k) && At(env, r, k).Some? && At(env, r, k).value.Plain?) ==> s == GetData(env, r, k)
  {
    match Get(env, r, k)
    case Ok(Plain(_)) => Step(r, Err(NotCached))
    case _ => GetData(env, r, k)
  }

  /** What `storeData` leaves: the entry with its hash memoised (the object is
      updated in place) and what `store` reported. */
  datatype Saved = Saved(entry: Entry, stored: bool)

  /** `storeData($data, $lifetime)`: memoises the dependency hash, then stores the
      entry under its own key. An entry without a key reaches `store` as null, a
      type error. */
  function StoreData(env: Env, r: Ram, e: Entry, lifetime: int): (s: Step<Saved>)
    ensures s.res.Ok? ==> s.res.value.entry == e.(depsHash := s.res.value.entry.depsHash)
    ensures var g := GenerateDependenciesHash(env, r, e);
            && (s.res.Ok? ==> g.res.Ok? && s.res.value.entry.depsHash == g.res.value)
            && (g.res.Err? ==> s == Step(g.ram, Err(g.res.error)))
            && (g.res.Ok? && e.key.Some? && r.enabled && ValidArgs(e.key.value) ==> s.res.Ok?)
    ensures s.res.Ok? ==> e.key.Some?
    ensures s.res.Ok? && r.enabled ==> s.res.value.stored && At(env, s.ram, e.key.value) == Some(Stored(s.res.value.entry))
    ensures s.res.Ok? && !r.enabled ==> !s.res.value.stored
    ensures e.key.None? ==> s.res.Err?
    ensures s.ram.enabled == r.enabled && s.ram.ns == r.ns
  {
    var u := UpdateDependenciesHash(env, r, e);
    match u.res
    case Err(err) => Step(u.ram, Err(err))
    case Ok(e') =>
      if e'.key.None? then Step(u.ram, Err(Fatal(NoKey)))
      else
        var st := Store(env, u.ram, Stored(e'), e'.key.value, lifetime);
        match st.res
        case Err(err) => Step(st.ram, Err(err))
        case Ok(b) => Step(st.ram, Ok(Saved(e', b)))
  }

  /** `invalidate($k)`: bump the key's version counter (an unseen key becomes 0). */
  function Invalidate(env: Env, r: Ram, k: Key): (s: Step<int>)
    ensures !r.enabled ==> s == Step(r, Ok(0))
    ensures r.enabled && !ValidArgs(k) ==> s == Step(r, Err(InvalidData))
    ensures r.enabled && ValidArgs(k) && At(env, r, k) == None ==> s.res == Ok(0)
    ensures r.enabled && ValidArgs(k) && At(env, r, k).Some? && At(env, r, k).value.Stored? ==> s.res == Ok(1)
    ensures s.res.Ok? && r.enabled ==> At(env, s.ram, k) == Some(Plain(Int(s.res.value)))
    ensures r.enabled && ValidArgs(k) && At(env, r, k).Some? && At(env, r, k).value.Plain? && At(env, r, k).value.v.Int? ==>
              s.res == Ok(At(env, r, k).value.v.i + 1)
    ensures forall k2 :: !SameSlot(env, r.ns, k, k2) ==> At(env, s.ram, k2) == At(env, r, k2)
  {
    Increment(env, r, 1, k, 0)
  }

  /** `clean($k)`: `cleanP` on the key's base and id. */
  function Clean(env: Env, r: Ram, k: Key): (r': Ram)
    ensures At(env, r', k) == None
    ensures forall k2: Key :: BucketIndex(r.ns, k2.base, k2.id) == BucketIndex(r.ns, k.base, k.id) ==> At(env, r', k2) == None
    ensures forall k2: Key :: BucketIndex(r.ns, k2.base, k2.id) != BucketIndex(r.ns, k.base, k.id) ==> At(env, r', k2) == At(env, r, k2)
  {
    CleanP(env, r, k.base, k.id)
  }
}
