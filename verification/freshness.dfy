/**
  How the dependency hash decides freshness. An entry stays up to date while the
  slots of its dependencies keep their contents. It goes stale when a version
  counter is bumped or a different child is stored. The second fact holds only
  for an md5 (and an entry serialization) that tell different texts apart, so
  those are hypotheses.
 */
module Freshness {
  import opened Wrappers
  import opened Php
  import opened Keys
  import opened Entries
  import opened Oracles
  import opened RamStore
  import opened Deps

  /** Every key of `ks` passes `checkValidArgs`. */
  predicate AllValid(ks: seq<Key>) {
    forall i :: 0 <= i < |ks| ==> ValidArgs(ks[i])
  }

  /** On an enabled store and valid keys, `getMulti` with `dependencyInit` cannot
      fail. */
  lemma {:induction false} GetMultiSucceeds(env: Env, r: Ram, keys: seq<Key>)
    requires r.enabled && AllValid(keys)
    ensures GetMulti(env, r, keys, DependencyInit).res.Ok?
    decreases |keys|
  {
    if |keys| > 0 {
      var first := GetOne(env, r, keys[0], DependencyInit);
      assert first.res.Ok?;
      assert AllValid(keys[1..]) by {
        forall i | 0 <= i < |keys[1..]| ensures ValidArgs(keys[1..][i]) {
          assert keys[1..][i] == keys[i + 1];
        }
      }
      GetMultiSucceeds(env, first.ram, keys[1..]);
    }
  }

  /** Unchanged implies fresh: an entry found up to date stays up to date in any
      store whose dependency slots hold the same values, and checking it there
      changes nothing. */
  lemma UnchangedVersionsStayFresh(env: Env, r1: Ram, r2: Ram, e: Entry)
    requires r1.enabled && r2.enabled && AllValid(e.deps)
    requires AllPresent(env, r1, e.deps)
    requires CheckUpdateToDate(env, r1, e).res == Ok(true)
    requires forall i :: 0 <= i < |e.deps| ==> At(env, r2, e.deps[i]) == At(env, r1, e.deps[i])
    ensures CheckUpdateToDate(env, r2, e) == Step(r2, Ok(true))
  {
    if |e.deps| > 0 {
      GetMultiAllPresent(env, r1, e.deps, DependencyInit);
      assert AllPresent(env, r2, e.deps);
      GetMultiAllPresent(env, r2, e.deps, DependencyInit);
      assert Versions(env, r2, e.deps) == Versions(env, r1, e.deps);
    }
  }

  /** `storeData` of an entry that does not depend on its own slot leaves it in
      the store, up to date against the store it leaves. */
  lemma StoreDataFresh(env: Env, r: Ram, e: Entry, k: Key, lifetime: int)
    requires r.enabled && e.key == Some(k) && ValidArgs(k) && AllValid(e.deps)
    requires forall i :: 0 <= i < |e.deps| ==> !SameSlot(env, r.ns, k, e.deps[i])
    ensures var sv := StoreData(env, r, e, lifetime);
            && sv.res.Ok? && sv.ram.enabled && At(env, sv.ram, k) == Some(Stored(sv.res.value.entry))
            && CheckUpdateToDate(env, sv.ram, sv.res.value.entry) == Step(sv.ram, Ok(true))
  {
    GetMultiSucceeds(env, r, e.deps);
    var u := UpdateDependenciesHash(env, r, e);
    assert u.res.Ok?;
    var e' := u.res.value;
    assert u.ram.enabled && u.ram.ns == r.ns;
    var st := Store(env, u.ram, Stored(e'), k, lifetime);
    assert st.res == Ok(true) && At(env, st.ram, k) == Some(Stored(e'));
    assert StoreData(env, r, e, lifetime) == Step(st.ram, Ok(Saved(e', true)));
    if |e.deps| > 0 {
      assert AllPresent(env, u.ram, e.deps);
      UnchangedVersionsStayFresh(env, u.ram, st.ram, e');
    }
  }

  /** Round trip: an entry that does not depend on its own slot, stored with
      `storeData`, comes back from `getData` as stored, and reading it changes
      nothing. */
  lemma StoreThenGetData(env: Env, r: Ram, e: Entry, k: Key, lifetime: int)
    requires r.enabled && e.key == Some(k) && ValidArgs(k) && AllValid(e.deps)
    requires forall i :: 0 <= i < |e.deps| ==> !SameSlot(env, r.ns, k, e.deps[i])
    ensures var sv := StoreData(env, r, e, lifetime);
            sv.res.Ok? && GetData(env, sv.ram, k) == Step(sv.ram, Ok(sv.res.value.entry))
  {
    StoreDataFresh(env, r, e, k, lifetime);
  }

  /** What the hash digests for a single dependency holding an integer counter. */
  lemma ImplodeCounter(env: Env, n: int)
    ensures Implode(env, [Some(Plain(Int(n)))]) == Decimal(n)
  {
    assert Implode(env, [Some(Plain(Int(n)))][1..]) == "";
    assert Decimal(n) + "" == Decimal(n);
  }

  /** `vs2` is `vs1` with some occurrences of `x1` replaced by `x2`. */
  predicate Replaces(vs1: seq<Option<Value>>, vs2: seq<Option<Value>>, x1: Value, x2: Value) {
    && |vs1| == |vs2|
    && forall i :: 0 <= i < |vs1| ==> vs2[i] == vs1[i] || (vs1[i] == Some(x1) && vs2[i] == Some(x2))
  }

  /** How many positions two version lists of equal length differ in. */
  function Changed(vs1: seq<Option<Value>>, vs2: seq<Option<Value>>): nat
    requires |vs1| == |vs2|
  {
    if |vs1| == 0 then 0 else (if vs1[0] != vs2[0] then 1 else 0) + Changed(vs1[1..], vs2[1..])
  }

  lemma ReplacesTail(vs1: seq<Option<Value>>, vs2: seq<Option<Value>>, x1: Value, x2: Value)
    requires Replaces(vs1, vs2, x1, x2) && |vs1| > 0
    ensures Replaces(vs1[1..], vs2[1..], x1, x2)
  {
    forall i | 0 <= i < |vs1| - 1
      ensures vs2[1..][i] == vs1[1..][i] || (vs1[1..][i] == Some(x1) && vs2[1..][i] == Some(x2))
    {
      assert vs1[1..][i] == vs1[i + 1] && vs2[1..][i] == vs2[i + 1];
    }
  }

  /** Each replacement moves the imploded text's length at least one character in
      the direction the replacement text's length moves. */
  lemma {:induction false} ImplodeLength(env: Env, vs1: seq<Option<Value>>, vs2: seq<Option<Value>>, x1: Value, x2: Value)
    requires Replaces(vs1, vs2, x1, x2)
    ensures |ValueText(env, x1)| < |ValueText(env, x2)| ==> |Implode(env, vs2)| >= |Implode(env, vs1)| + Changed(vs1, vs2)
    ensures |ValueText(env, x1)| > |ValueText(env, x2)| ==> |Implode(env, vs1)| >= |Implode(env, vs2)| + Changed(vs1, vs2)
    decreases |vs1|
  {
    if |vs1| > 0 {
      ReplacesTail(vs1, vs2, x1, x2);
      ImplodeLength(env, vs1[1..], vs2[1..], x1, x2);
    }
  }

  /** A position that differs is counted. */
  lemma {:induction false} ChangedPositive(vs1: seq<Option<Value>>, vs2: seq<Option<Value>>, j: nat)
    requires |vs1| == |vs2| && j < |vs1| && vs1[j] != vs2[j]
    ensures Changed(vs1, vs2) > 0
    decreases j
  {
    if j > 0 && vs1[0] == vs2[0] {
      ChangedPositive(vs1[1..], vs2[1..], j - 1);
    }
  }

  /** With texts of equal length, the first replaced position already tells the
      imploded texts apart. */
  lemma {:induction false} ImplodeSameLength(env: Env, vs1: seq<Option<Value>>, vs2: seq<Option<Value>>, x1: Value, x2: Value, j: nat)
    requires Replaces(vs1, vs2, x1, x2) && j < |vs1| && vs1[j] != vs2[j]
    requires |ValueText(env, x1)| == |ValueText(env, x2)| && ValueText(env, x1) != ValueText(env, x2)
    ensures Implode(env, vs1) != Implode(env, vs2)
    decreases j
  {
    var t1 := ValueText(env, x1);
    var t2 := ValueText(env, x2);
    if vs1[0] != vs2[0] {
      assert vs1[0] == Some(x1) && vs2[0] == Some(x2);
      assert Implode(env, vs1)[..|t1|] == t1;
      assert Implode(env, vs2)[..|t1|] == t2;
    } else {
      ReplacesTail(vs1, vs2, x1, x2);
      ImplodeSameLength(env, vs1[1..], vs2[1..], x1, x2, j - 1);
      var p := if vs1[0].Some? then ValueText(env, vs1[0].value) else "";
      assert Implode(env, vs1)[|p|..] == Implode(env, vs1[1..]);
      assert Implode(env, vs2)[|p|..] == Implode(env, vs2[1..]);
    }
  }

  /** Replacing a value by one that reads differently changes the text the
      dependency hash digests. */
  lemma ImplodeReplaced(env: Env, vs1: seq<Option<Value>>, vs2: seq<Option<Value>>, x1: Value, x2: Value, j: nat)
    requires Replaces(vs1, vs2, x1, x2) && j < |vs1| && vs1[j] != vs2[j]
    requires ValueText(env, x1) != ValueText(env, x2)
    ensures Implode(env, vs1) != Implode(env, vs2)
  {
    if |ValueText(env, x1)| == |ValueText(env, x2)| {
      ImplodeSameLength(env, vs1, vs2, x1, x2, j);
    } else {
      ImplodeLength(env, vs1, vs2, x1, x2);
      ChangedPositive(vs1, vs2, j);
    }
  }

  /** Changed implies stale: an up-to-date entry goes stale when the slot of one of
      its dependencies gets a value that reads differently and no other slot
      changes (md5 assumed injective). Checking it before the change touches
      nothing. */
  lemma ReplacedSlotMakesStale(env: Env, r: Ram, r': Ram, e: Entry, d: Key, x1: Value, x2: Value)
    requires Md5Injective(env)
    requires r.enabled && r'.enabled && r'.ns == r.ns && AllValid(e.deps) && AllPresent(env, r, e.deps)
    requires d in e.deps && At(env, r, d) == Some(x1) && At(env, r', d) == Some(x2)
    requires ValueText(env, x1) != ValueText(env, x2)
    requires forall k2 :: !SameSlot(env, r.ns, d, k2) ==> At(env, r', k2) == At(env, r, k2)
    requires CheckUpdateToDate(env, r, e).res == Ok(true)
    ensures CheckUpdateToDate(env, r, e) == Step(r, Ok(true))
    ensures CheckUpdateToDate(env, r', e) == Step(r', Ok(false))
  {
    var vs1 := Versions(env, r, e.deps);
    var vs2 := Versions(env, r', e.deps);
    var j :| 0 <= j < |e.deps| && e.deps[j] == d;
    GetMultiAllPresent(env, r, e.deps, DependencyInit);
    assert Replaces(vs1, vs2, x1, x2) && AllPresent(env, r', e.deps) by {
      forall i | 0 <= i < |e.deps|
        ensures vs2[i] == vs1[i] || (vs1[i] == Some(x1) && vs2[i] == Some(x2))
        ensures At(env, r', e.deps[i]).Some?
      {
        if SameSlot(env, r.ns, d, e.deps[i]) {
          assert At(env, r, e.deps[i]) == At(env, r, d);
          assert At(env, r', e.deps[i]) == At(env, r', d);
        }
      }
    }
    GetMultiAllPresent(env, r', e.deps, DependencyInit);
    ImplodeReplaced(env, vs1, vs2, x1, x2, j);
  }

  /** `invalidate` on any dependency that holds a counter makes an up-to-date entry
      stale (md5 assumed injective). */
  lemma InvalidateMakesStale(env: Env, r: Ram, e: Entry, d: Key, n: int)
    requires Md5Injective(env)
    requires r.enabled && AllValid(e.deps) && AllPresent(env, r, e.deps)
    requires d in e.deps && At(env, r, d) == Some(Plain(Int(n)))
    requires CheckUpdateToDate(env, r, e).res == Ok(true)
    ensures CheckUpdateToDate(env, r, e) == Step(r, Ok(true))
    ensures var r' := Invalidate(env, r, d).ram;
            CheckUpdateToDate(env, r', e) == Step(r', Ok(false))
  {
    var r' := Invalidate(env, r, d).ram;
    assert ValidArgs(d);
    assert At(env, r', d) == Some(Plain(Int(n + 1)));
    DecimalInjective(n, n + 1);
    ReplacedSlotMakesStale(env, r, r', e, d, Plain(Int(n)), Plain(Int(n + 1)));
  }

  /** Re-storing a different child under any dependency key makes an up-to-date
      entry stale, because the child's serialization is its version (md5 and the
      serialization of entries assumed injective). */
  lemma RestoredChildMakesParentStale(env: Env, r: Ram, e: Entry, d: Key, c1: Entry, c2: Entry, lifetime: int)
    requires Md5Injective(env) && SerializeEntryInjective(env)
    requires r.enabled && AllValid(e.deps) && AllPresent(env, r, e.deps)
    requires d in e.deps && At(env, r, d) == Some(Stored(c1)) && c2 != c1
    requires CheckUpdateToDate(env, r, e).res == Ok(true)
    ensures CheckUpdateToDate(env, r, e) == Step(r, Ok(true))
    ensures var r' := Store(env, r, Stored(c2), d, lifetime).ram;
            CheckUpdateToDate(env, r', e) == Step(r', Ok(false))
  {
    var r' := Store(env, r, Stored(c2), d, lifetime).ram;
    assert ValidArgs(d);
    ReplacedSlotMakesStale(env, r, r', e, d, Stored(c1), Stored(c2));
  }

  /** A counter that is deleted and then invalidated starts again at 0, so an
      entry that was up to date with that dependency at version 0 is up to date
      again. */
  lemma DeleteThenInvalidateRestoresVersionZero(env: Env, r: Ram, e: Entry, d: Key)
    requires r.enabled && AllValid(e.deps) && AllPresent(env, r, e.deps)
    requires d in e.deps && At(env, r, d) == Some(Plain(Int(0)))
    requires CheckUpdateToDate(env, r, e).res == Ok(true)
    ensures var r' := Invalidate(env, Delete(env, r, d).ram, d).ram;
            CheckUpdateToDate(env, r', e) == Step(r', Ok(true))
  {
    var r1 := Delete(env, r, d).ram;
    var r' := Invalidate(env, r1, d).ram;
    assert ValidArgs(d);
    forall i | 0 <= i < |e.deps| ensures At(env, r', e.deps[i]) == At(env, r, e.deps[i]) {
      if SameSlot(env, r.ns, d, e.deps[i]) {
        assert At(env, r, e.deps[i]) == At(env, r, d);
        assert At(env, r', e.deps[i]) == At(env, r', d);
      }
    }
    UnchangedVersionsStayFresh(env, r, r', e);
  }

  /** The dependency test of the basic suite: an entry depending on a key nobody
      has touched is stored and read back; after `invalidate` on that key it is
      stale, and `getData` deletes it. */
  lemma StoreInvalidateGetData(env: Env, r: Ram, e: Entry, k: Key, d: Key)
    requires Md5Injective(env)
    requires r.enabled && e.key == Some(k) && ValidArgs(k) && ValidArgs(d) && e.deps == [d]
    requires At(env, r, d) == None && !SameSlot(env, r.ns, k, d)
    ensures var sv := StoreData(env, r, e, 0);
            && sv.res.Ok?
            && GetData(env, sv.ram, k) == Step(sv.ram, Ok(sv.res.value.entry))
            && var r2 := Invalidate(env, sv.ram, d).ram;
               GetData(env, r2, k).res == Err(NotCached) && At(env, GetData(env, r2, k).ram, k) == None
  {
    StoreThenGetData(env, r, e, k, 0);
    var sv := StoreData(env, r, e, 0);
    var e' := sv.res.value.entry;
    var u := UpdateDependenciesHash(env, r, e);
    assert At(env, u.ram, d) == Some(Plain(Int(0))) by {
      assert At(env, GetOne(env, r, d, DependencyInit).ram, d) == Some(Plain(Int(0)));
      assert GetMulti(env, r, [d], DependencyInit).ram == GetOne(env, r, d, DependencyInit).ram;
    }
    assert At(env, sv.ram, d) == Some(Plain(Int(0)));
    assert CheckUpdateToDate(env, sv.ram, e').res == Ok(true);
    assert AllPresent(env, sv.ram, e'.deps);
    InvalidateMakesStale(env, sv.ram, e', d, 0);
    var r2 := Invalidate(env, sv.ram, d).ram;
    assert At(env, r2, k) == Some(Stored(e'));
  }
}
