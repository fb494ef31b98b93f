/**
  Concrete inputs on which the code as written departs from what it evidently
  means, each set beside the corrected definition.
 */
module Findings {
  import opened Wrappers
  import opened Php
  import opened Keys
  import opened Entries
  import opened Oracles
  import opened RamStore
  import opened Deps
  import opened Render
  import opened Engine
  import opened Scenarios
  import opened Freshness

  /** The clash test of the suite: a scope keyed `k` opened inside a scope keyed `k`.
      The fresh frame equals the outer one by value, so the loop skips it and the
      start reports a miss; the corrected check reports the clash. */
  lemma TestClashMissed(env: Env, k: Key)
    requires ValidArgs(k)
    ensures var st1 := Start(env, Init(EmptyRam(), [""]), k, 0, true, false).st;
            && Valid(st1) && st1.depth == 1 && IsOpen(st1, k)
            && Start(env, st1, k, 0, true, false).res == Ok(Miss)
            && RecursiveStartFixed(env, st1, k, 0, true, false).res == Err(KeyClash)
  {
    var st0 := Init(EmptyRam(), [""]);
    FirstStartMisses(env, st0, k, 0, true);
    var st1 := Start(env, st0, k, 0, true, false).st;
    assert st1.frames[0].key == Some(k);
    assert GetData(env, st1.ram, k) == Step(st1.ram, Err(NotCached));
    var cd := Fresh(st1, k, 0);
    assert cd == Fresh(st0, k, 0);
    var fs := Place(st1.frames, 1, cd);
    assert forall i :: 0 <= i < |fs| ==> fs[i] == cd;
    assert Push(st1, k, 0).res.Ok?;
  }

  /** A frame left above the depth by a closed scope: the outer scope `a` is open,
      and a closed scope keyed `c` is still recorded two places up. Starting `c`
      in `a` throws a clash although no open scope is keyed `c`; the corrected
      check opens the scope. */
  lemma StaleFrameClash(a: Key, b: Key, c: Key)
    requires ValidArgs(c) && a != c
    ensures var st := State(EmptyRam(), [Entry(Some(a), 0, [], [], ""), Entry(Some(b), 0, [], [], ""),
                                         Entry(Some(c), 0, [Data(Str("x"))], [], "")], 1, [""], "", 0);
            && Valid(st) && !IsOpen(st, c)
            && Push(st, c, 0).res == Err(KeyClash)
            && PushFixed(st, c, 0).res == Ok(Miss)
  {
    var st := State(EmptyRam(), [Entry(Some(a), 0, [], [], ""), Entry(Some(b), 0, [], [], ""),
                                 Entry(Some(c), 0, [Data(Str("x"))], [], "")], 1, [""], "", 0);
    var fs := Place(st.frames, 1, Fresh(st, c, 0));
    assert fs[2] == st.frames[2] && fs[2] != Fresh(st, c, 0);
  }

  /** A scope whose body echoes '0' caches and returns nothing. */
  lemma ZeroOutputLost(env: Env, k: Key, buffers: seq<string>)
    requires ValidArgs(k)
    ensures var o1 := Start(env, Init(EmptyRam(), buffers), k, 0, true, false);
            End(env, Echo(o1.st, "0"), false).res == Ok(Text(""))
  {
    var st0 := Init(EmptyRam(), buffers);
    FirstStartMisses(env, st0, k, 0, true);
    var st1 := Echo(Start(env, st0, k, 0, true, false).st, "0");
    assert ObGetContents(st1) == Str("0") by {
      CaptureRoundTrip(st0, "0");
    }
    assert !Truthy(Str("0"));
    var cd := Fresh(st0, k, 0);
    assert StoreData(env, ObGetClean(st1).1.ram, cd, 0).res == Ok(Saved(cd, true));
    RenderWithoutLinks(env, StoreData(env, ObGetClean(st1).1.ram, cd, 0).ram, [], env.depthLimit);
  }

  /** Keeping the captured output as `AppendOutput` does restores the text, '0'
      included. */
  lemma ZeroOutputKept(env: Env, e: Entry, c: string)
    requires c != ""
    ensures FlatText(env, AppendOutput(e, Str(c)).segments) == FlatText(env, e.segments) + c
  {
    FlatTextAppend(env, e.segments, [Data(Str(c))]);
    assert FlatText(env, [Data(Str(c))]) == c + "";
  }

  /** `invalidate` on a key that holds an entry turns the entry into the counter 1,
      and reading the key as an entry then fails outright instead of missing. */
  lemma InvalidatedEntryIsFatal(env: Env, r: Ram, k: Key, e: Entry)
    requires r.enabled && ValidArgs(k) && At(env, r, k) == Some(Stored(e))
    ensures var r' := Invalidate(env, r, k).ram;
            && At(env, r', k) == Some(Plain(Int(1)))
            && GetData(env, r', k).res == Err(Fatal(NotAnEntry))
            && GetDataFixed(env, r', k) == Step(r', Err(NotCached))
  {
    IncrementOverwritesEntry(env, r, k, e, 1);
  }

  /** A hit whose text is empty at the top level: `startCallback` takes it for a
      miss, runs the callback and calls `end` with no scope open, which fails;
      the corrected test returns the hit. */
  lemma EmptyHitCrashes(env: Env, k: Key, body: string)
    requires ValidArgs(k)
    ensures var e := Entry(Some(k), 0, [], [], "");
            var st := Init(Put(env, EmptyRam(), k, Stored(e)), [""]);
            && StartCallback(env, st, k, body, 0).res == Err(Fatal(NoOpenScope))
            && StartCallbackFixed(env, st, k, body, 0).res == Ok(Text(""))
  {
    var e := Entry(Some(k), 0, [], [], "");
    var r := Put(env, EmptyRam(), k, Stored(e));
    var st := Init(r, [""]);
    assert At(env, r, k) == Some(Stored(e));
    assert CheckUpdateToDate(env, r, e) == Step(r, Ok(true));
    assert GetData(env, r, k) == Step(r, Ok(e));
    assert Stringify(env, r, e, true) == Step(r, Ok(""));
    var s := Start(env, st, k, 0, true, false);
    assert s.res == Ok(Text("")) && s.st.depth == 0 && s.st.ram.enabled;
  }

  /** Merging the dependencies of two entries with one key each fails as written;
      the corrected merge keeps both keys. */
  lemma MergeTwoKeysFails(e: Entry, other: Entry, k1: Key, k2: Key)
    requires e.deps == [k1] && other.deps == [k2] && k1 != k2
    ensures MergeDependencies(e, other) == Err(Fatal(NotStringable))
    ensures MergeDependenciesFixed(e, other).deps == [k1, k2]
  {
    var m := e.deps + other.deps;
    assert m == [k1, k2];
    assert m[..1] == [k1] && [k1][..0] == [];
    assert Dedup([k1]) == [k1];
    assert Dedup(m) == [k1, k2];
  }

  /** `setDependencies` with at least one valid key on an enabled store: the entry
      comes back with the hash '', which no md5 digest equals, so it is stale at
      once and the next `getData` discards it. The corrected version memoises the
      hash and the entry is up to date. */
  lemma SetDependenciesLeavesStale(env: Env, r: Ram, e: Entry, ks: seq<Key>)
    requires Md5Digests(env)
    requires r.enabled && |ks| > 0 && AllValid(ks)
    ensures var s := SetDependencies(env, r, e, ks);
            s.res.Ok? && CheckUpdateToDate(env, s.ram, s.res.value).res == Ok(false)
    ensures var f := SetDependenciesFixed(env, r, e, ks);
            f.res.Ok? && CheckUpdateToDate(env, f.ram, f.res.value) == Step(f.ram, Ok(true))
  {
    GetMultiSucceeds(env, r, ks);
    var s := SetDependencies(env, r, e, ks);
    assert s.res.Ok? && s.ram.enabled;
    GetMultiSucceeds(env, s.ram, ks);
    var c := CheckUpdateToDate(env, s.ram, s.res.value);
    assert c.res.Ok?;
    assert |env.md5(VersionText(env, c.ram, ks))| == 32;
  }
}
