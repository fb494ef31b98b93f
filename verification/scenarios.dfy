/**
  Whole request sequences run through the engine, in the manner of the start/end
  test suite: a single scope on any store where its key is empty (a miss, then a
  hit returning the same text), and two nested scopes from an empty store.
 */
module Scenarios {
  import opened Wrappers
  import opened Php
  import opened Keys
  import opened Entries
  import opened Oracles
  import opened RamStore
  import opened Deps
  import opened Render
  import opened Engine

  /** What a captured output reads back as: the text itself, or nothing when PHP
      finds it falsy. */
  function Kept(c: string): (t: string)
    ensures t == c || t == ""
    ensures c != "" && c != "0" ==> t == c
  {
    if Truthy(Str(c)) then c else ""
  }

  /** The first start on a key whose slot is empty, with no scope open, misses and
      opens one scope. */
  lemma FirstStartMisses(env: Env, st: State, k: Key, lifetime: int, printIt: bool)
    requires Valid(st) && st.ram.enabled && st.depth == 0 && ValidArgs(k) && At(env, st.ram, k) == None
    ensures var o := Start(env, st, k, lifetime, printIt, false);
            && o.res == Ok(Miss) && o.st.depth == 1 && o.st.frames[0] == Fresh(st, k, lifetime)
            && o.st.ram == st.ram && o.st.buffers == st.buffers + [""] && o.st.out == st.out
  {
    assert GetData(env, st.ram, k) == Step(st.ram, Err(NotCached));
  }

  /** A single scope on any store where the key is empty: start misses, the body
      echoes `c`, end returns what was captured, and a second start is a hit
      returning the same text without opening anything. The buffers are back as
      they were. */
  lemma SingleScopeRoundTrip(env: Env, st: State, k: Key, c: string)
    requires Valid(st) && st.ram.enabled && st.depth == 0 && ValidArgs(k) && At(env, st.ram, k) == None
    ensures var o1 := Start(env, st, k, 0, true, false);
            var o2 := End(env, Echo(o1.st, c), false);
            var o3 := Start(env, o2.st, k, 0, false, false);
            && o1.res == Ok(Miss)
            && o2.res == Ok(Text(Kept(c))) && o2.st.depth == 0 && o2.st.buffers == st.buffers
            && o3.res == Ok(Text(Kept(c))) && o3.st.depth == 0 && o3.st.buffers == st.buffers
  {
    FirstStartMisses(env, st, k, 0, true);
    var o1 := Start(env, st, k, 0, true, false);
    var st1 := Echo(o1.st, c);
    assert ObGetContents(st1) == Str(c) && ObGetClean(st1).1.buffers == st.buffers by {
      CaptureRoundTrip(st, c);
    }
    var cd := AppendData(Fresh(st, k, 0), Str(c));
    var saved := cd.(depsHash := "");
    assert cd.deps == [] && cd.depsHash == "" && saved == cd;
    var sv := StoreData(env, ObGetClean(st1).1.ram, cd, 0);
    assert sv.res == Ok(Saved(cd, true));
    assert At(env, sv.ram, k) == Some(Stored(cd));
    RenderWithoutLinks(env, sv.ram, cd.segments, env.depthLimit);
    assert FlatText(env, cd.segments) == Kept(c) by {
      if Truthy(Str(c)) {
        assert cd.segments == [Data(Str(c))];
        assert FlatText(env, cd.segments) == c + "";
      }
    }
    var o2 := End(env, st1, false);
    assert o2.res == Ok(Text(Kept(c)));
    assert o2.st.ram == sv.ram;
    assert GetData(env, sv.ram, k) == Step(sv.ram, Ok(cd));
  }

  /** Two nested scopes on an empty store: an outer scope echoes `a`, a nested
      scope echoes `b`, the outer one echoes `c`; closing the outer scope returns
      `a` + `b` + `c`. The outer entry then holds two literal segments around a
      reference to the inner one and depends on the inner key twice. (The suite's
      nesting test follows the same pattern four levels deep, with no text after
      an inner scope.) */
  lemma NestedScopes(env: Env, ka: Key, kb: Key, a: string, b: string, c: string, buffers: seq<string>)
    requires ValidArgs(ka) && ValidArgs(kb) && !SameSlot(env, "", ka, kb) && !SameSlot(env, "", kb, ka)
    requires Truthy(Str(a)) && Truthy(Str(b)) && Truthy(Str(c)) && env.depthLimit > 0
    ensures var s1 := Start(env, Init(EmptyRam(), buffers), ka, 0, true, false).st;
            var s2 := Start(env, Echo(s1, a), kb, 0, true, false).st;
            var s3 := End(env, Echo(s2, b), true).st;
            var o := End(env, Echo(s3, c), false);
            && o.res == Ok(Text(a + b + c)) && o.st.depth == 0 && o.st.buffers == buffers
            && o.st.frames[0].segments == [Data(Str(a)), RecursionData(kb), Data(Str(c))]
            && o.st.frames[0].deps == [kb, kb]
  {
    var st0 := Init(EmptyRam(), buffers);
    NestedInnerCloses(env, ka, kb, a, b, buffers);
    var s1 := Start(env, st0, ka, 0, true, false).st;
    var s2 := Start(env, Echo(s1, a), kb, 0, true, false).st;
    var s3 := End(env, Echo(s2, b), true).st;
    NestedOuterCloses(env, s3, ka, kb, AppendData(Fresh(st0, kb, 0), Str(b)), a, b, c, buffers);
  }

  /** The last step of `NestedScopes`, from the state the inner end leaves. */
  lemma NestedOuterCloses(env: Env, s3: State, ka: Key, kb: Key, ib: Entry, a: string, b: string, c: string,
                          buffers: seq<string>)
    requires Valid(s3) && ValidArgs(ka) && ValidArgs(kb) && !SameSlot(env, "", ka, kb)
    requires Truthy(Str(a)) && Truthy(Str(b)) && Truthy(Str(c)) && env.depthLimit > 0
    requires s3.ram.enabled && s3.ram.ns == "" && s3.depth == 1 && s3.buffers == buffers + [""]
    requires s3.frames[0].key == Some(ka)
    requires s3.frames[0].segments == [Data(Str(a)), RecursionData(kb)] && s3.frames[0].deps == [kb, kb]
    requires ib.segments == [Data(Str(b))] && ib.deps == [] && At(env, s3.ram, kb) == Some(Stored(ib))
    ensures var o := End(env, Echo(s3, c), false);
            && o.res == Ok(Text(a + b + c)) && o.st.depth == 0 && o.st.buffers == buffers
            && o.st.frames[0].segments == [Data(Str(a)), RecursionData(kb), Data(Str(c))]
            && o.st.frames[0].deps == [kb, kb]
  {
    var e3 := Echo(s3, c);
    assert e3.buffers == buffers + [c] by {
      EchoExtendsInnermost(s3, buffers, "", c);
      assert "" + c == c;
    }
    assert e3.frames == s3.frames && e3.ram == s3.ram && e3.depth == 1 && Valid(e3);
    var ia := AppendData(s3.frames[0], Str(c));
    assert ia.segments == [Data(Str(a)), RecursionData(kb), Data(Str(c))] by {
      assert ia.segments == [Data(Str(a)), RecursionData(kb)] + [Data(Str(c))];
    }
    OuterEndRenders(env, e3, ia, ka, kb, ib, a, b, c);
  }

  /** The first three steps of `NestedScopes` (outer start, inner start, inner
      end): afterwards the outer frame holds `a` and a reference to the inner key,
      and the inner entry holding `b` is stored. */
  lemma NestedInnerCloses(env: Env, ka: Key, kb: Key, a: string, b: string, buffers: seq<string>)
    requires ValidArgs(ka) && ValidArgs(kb) && !SameSlot(env, "", kb, ka)
    requires Truthy(Str(a)) && Truthy(Str(b))
    ensures var st0 := Init(EmptyRam(), buffers);
            var s1 := Start(env, st0, ka, 0, true, false).st;
            var s2 := Start(env, Echo(s1, a), kb, 0, true, false).st;
            var s3 := End(env, Echo(s2, b), true).st;
            && s3.ram.enabled && s3.ram.ns == "" && s3.depth == 1 && s3.buffers == buffers + [""]
            && s3.frames[0] == s2.frames[0] && s2.frames[0].key == Some(ka)
            && s2.frames[0].segments == [Data(Str(a)), RecursionData(kb)] && s2.frames[0].deps == [kb, kb]
            && At(env, s3.ram, kb) == Some(Stored(AppendData(Fresh(st0, kb, 0), Str(b))))
  {
    var st0 := Init(EmptyRam(), buffers);
    var s1 := Start(env, st0, ka, 0, true, false).st;
    var e1 := Echo(s1, a);
    OuterEchoes(env, ka, a, buffers);
    var s2 := Start(env, e1, kb, 0, true, false).st;
    var e2 := Echo(s2, b);
    InnerEchoes(env, e1, ka, kb, a, b, buffers);
    var ib := AppendData(Fresh(st0, kb, 0), Str(b));
    assert Fresh(e2, kb, 0) == Fresh(st0, kb, 0);
    InnerEndStores(env, e2, kb, ib, b, buffers);
  }

  /** The outer start of `NestedScopes` followed by echoing `a`. */
  lemma OuterEchoes(env: Env, ka: Key, a: string, buffers: seq<string>)
    requires ValidArgs(ka)
    ensures var st0 := Init(EmptyRam(), buffers);
            var e1 := Echo(Start(env, st0, ka, 0, true, false).st, a);
            && e1.ram == EmptyRam() && e1.depth == 1 && e1.frames == [Fresh(e1, ka, 0)]
            && e1.buffers == buffers + [a] && e1.lifetime == st0.lifetime
  {
    var st0 := Init(EmptyRam(), buffers);
    var s1 := Start(env, st0, ka, 0, true, false).st;
    FirstStartMisses(env, st0, ka, 0, true);
    EchoExtendsInnermost(s1, buffers, "", a);
    assert "" + a == a;
  }

  /** The nested start of `NestedScopes` followed by echoing `b`. */
  lemma InnerEchoes(env: Env, e1: State, ka: Key, kb: Key, a: string, b: string, buffers: seq<string>)
    requires e1.ram == EmptyRam() && e1.depth == 1 && e1.frames == [Fresh(e1, ka, 0)] && e1.buffers == buffers + [a]
    requires ValidArgs(kb) && ka != kb && Truthy(Str(a))
    ensures var s2 := Start(env, e1, kb, 0, true, false).st;
            var e2 := Echo(s2, b);
            && Valid(e2) && e2.ram.enabled && e2.ram.ns == "" && e2.depth == 2 && |e2.frames| == 2
            && e2.frames == s2.frames && e2.frames[1] == Fresh(e2, kb, 0) && e2.buffers == buffers + ["", b]
            && e2.lifetime == e1.lifetime && s2.frames[0].key == Some(ka)
            && s2.frames[0].segments == [Data(Str(a)), RecursionData(kb)] && s2.frames[0].deps == [kb, kb]
  {
    var s2 := Start(env, e1, kb, 0, true, false).st;
    var e2 := Echo(s2, b);
    NestedStartRecords(env, e1, ka, kb, a, buffers);
    assert s2.buffers == (buffers + [""]) + [""];
    EchoExtendsInnermost(s2, buffers + [""], "", b);
    assert "" + b == b;
    assert Fresh(e2, kb, 0) == Fresh(e1, kb, 0);
  }

  /** The nested start of `NestedScopes`: a miss that moves the pending `a` into the
      outer frame and records the inner key there, twice as a dependency. */
  lemma NestedStartRecords(env: Env, st: State, ka: Key, kb: Key, a: string, buffers: seq<string>)
    requires st.ram == EmptyRam() && st.depth == 1 && st.frames == [Fresh(st, ka, 0)] && st.buffers == buffers + [a]
    requires ValidArgs(kb) && ka != kb && Truthy(Str(a))
    ensures var o := Start(env, st, kb, 0, true, false);
            && o.res == Ok(Miss) && o.st.depth == 2 && o.st.ram == st.ram && o.st.lifetime == st.lifetime
            && |o.st.frames| == 2 && o.st.frames[1] == Fresh(st, kb, 0) && o.st.frames[0].key == Some(ka)
            && o.st.frames[0].segments == [Data(Str(a)), RecursionData(kb)] && o.st.frames[0].deps == [kb, kb]
            && o.st.buffers == buffers + ["", ""]
  {
    assert GetData(env, st.ram, kb) == Step(st.ram, Err(NotCached));
    assert st.(ram := st.ram) == st;
    assert Start(env, st, kb, 0, true, false) == Push(st, kb, 0);
    PushIntoOne(st, ka, kb, a, buffers);
  }

  /** The push of `NestedStartRecords`, on the frames alone. */
  lemma PushIntoOne(st: State, ka: Key, kb: Key, a: string, buffers: seq<string>)
    requires st.depth == 1 && st.frames == [Fresh(st, ka, 0)] && st.buffers == buffers + [a]
    requires ka != kb && Truthy(Str(a))
    ensures var o := Push(st, kb, 0);
            && o.res == Ok(Miss) && o.st.depth == 2 && o.st.ram == st.ram && o.st.lifetime == st.lifetime
            && |o.st.frames| == 2 && o.st.frames[1] == Fresh(st, kb, 0) && o.st.frames[0].key == Some(ka)
            && o.st.frames[0].segments == [Data(Str(a)), RecursionData(kb)] && o.st.frames[0].deps == [kb, kb]
            && o.st.buffers == buffers + ["", ""]
  {
    PushOntoOne(st, ka, kb);
    assert ObClean(st).buffers == buffers + [""];
    assert ObGetContents(st) == Str(a);
  }

  /** A push onto a single open frame keyed differently: no clash, and the frame
      gets the reference and the dependency twice. */
  lemma PushOntoOne(st: State, ka: Key, kb: Key)
    requires st.depth == 1 && st.frames == [Fresh(st, ka, 0)] && ka != kb
    ensures var o := Push(st, kb, 0);
            var data := ObGetContents(st);
            && o.res == Ok(Miss) && o.st.depth == 2 && o.st.ram == st.ram && o.st.lifetime == st.lifetime
            && o.st.buffers == ObStart(ObClean(st)).buffers
            && |o.st.frames| == 2 && o.st.frames[1] == Fresh(st, kb, 0)
            && o.st.frames[0].segments == (if Truthy(data) then [Data(data)] else []) + [RecursionData(kb)]
            && o.st.frames[0].deps == [kb, kb] && o.st.frames[0].key == Some(ka)
            && o.st.frames[0].lifetime == st.lifetime && o.st.frames[0].depsHash == ""
  {
    var fa := Fresh(st, ka, 0);
    var fb := Fresh(st, kb, 0);
    assert Place(st.frames, 1, fb) == [fa, fb];
    assert fa != fb && fa.key != Some(kb);
  }

  /** The inner end of `NestedScopes`: the inner frame, holding `b`, is stored under
      its key and the depth drops back to 1. */
  lemma InnerEndStores(env: Env, st: State, kb: Key, ib: Entry, b: string, buffers: seq<string>)
    requires Valid(st) && st.ram.enabled && st.ram.ns == "" && st.depth == 2 && |st.frames| == 2
    requires st.frames[1] == Fresh(st, kb, 0) && ValidArgs(kb) && Truthy(Str(b))
    requires st.buffers == buffers + ["", b] && ib == AppendData(Fresh(st, kb, 0), Str(b))
    ensures var o := End(env, st, true);
            && o.res == Ok(Miss) && o.st.depth == 1 && o.st.frames == [st.frames[0], ib]
            && At(env, o.st.ram, kb) == Some(Stored(ib)) && o.st.buffers == buffers + [""]
            && o.st.ram.enabled && o.st.ram.ns == "" && o.st.lifetime == st.lifetime
  {
    assert ObGetContents(st) == Str(b);
    assert ObGetClean(st).1.buffers == buffers + [""];
    assert ib.deps == [] && ib.depsHash == "";
    var o := End(env, st, true);
    assert o.st.frames[1].segments == ib.segments;
  }

  /** The last step of `NestedScopes`: the outer scope is stored and rendered, and
      the reference to the inner scope expands to its text. */
  lemma OuterEndRenders(env: Env, st: State, ia: Entry, ka: Key, kb: Key, ib: Entry, a: string, b: string, c: string)
    requires Valid(st) && st.ram.enabled && st.ram.ns == "" && st.depth == 1 && |st.buffers| > 0
    requires ValidArgs(ka) && ValidArgs(kb) && !SameSlot(env, "", ka, kb)
    requires Truthy(Str(a)) && Truthy(Str(b)) && Truthy(Str(c)) && env.depthLimit > 0
    requires ObGetContents(st) == Str(c)
    requires ia == AppendData(st.frames[0], Str(c)) && ia.key == Some(ka)
    requires ia.segments == [Data(Str(a)), RecursionData(kb), Data(Str(c))] && ia.deps == [kb, kb]
    requires ib.segments == [Data(Str(b))] && ib.deps == [] && At(env, st.ram, kb) == Some(Stored(ib))
    ensures var o := End(env, st, false);
            && o.res == Ok(Text(a + b + c)) && o.st.depth == 0
            && o.st.buffers == st.buffers[..|st.buffers| - 1]
            && o.st.frames[0].segments == ia.segments && o.st.frames[0].deps == ia.deps
  {
    var st1 := ObGetClean(st).1;
    var r := st1.ram;
    assert r == st.ram;
    assert AppendData(st.frames[0], ObGetClean(st).0) == ia;
    // the generation at line 657 only reads: the inner key is present
    assert AllPresent(env, r, ia.deps);
    GetMultiAllPresent(env, r, ia.deps, DependencyInit);
    var g := GenerateDependenciesHash(env, r, ia);
    assert g.ram == r && g.res.Ok?;
    var sv := StoreData(env, r, ia, 0);
    assert sv.res.Ok?;
    var ia' := sv.res.value.entry;
    assert At(env, sv.ram, kb) == Some(Stored(ib));
    RenderOuter(env, sv.ram, ia', kb, ib, a, b, c);
  }

  /** Rendering the outer entry: `a`, then the inner entry (up to date, since it has
      no dependencies), then `c`. */
  lemma RenderOuter(env: Env, r: Ram, ia: Entry, kb: Key, ib: Entry, a: string, b: string, c: string)
    requires r.enabled && ValidArgs(kb) && env.depthLimit > 0
    requires ia.segments == [Data(Str(a)), RecursionData(kb), Data(Str(c))]
    requires ib.segments == [Data(Str(b))] && ib.deps == [] && At(env, r, kb) == Some(Stored(ib))
    ensures Stringify(env, r, ia, true) == Step(r, Ok(a + b + c))
  {
    var f := env.depthLimit;
    var t2 := [Data(Str(c))];
    var t1 := [RecursionData(kb)] + t2;
    assert ia.segments == [Data(Str(a))] + t1;
    assert StringifySegs(env, r, t2, true, f) == Step(r, Ok(c)) by {
      PeelFirst(env, r, Data(Str(c)), [], true, f);
      assert [Data(Str(c))] + [] == t2;
      assert c + "" == c;
    }
    assert SegmentText(env, r, RecursionData(kb), true, f) == Step(r, Ok(b)) by {
      assert GetData(env, r, kb) == Step(r, Ok(ib));
      RenderWithoutLinks(env, r, ib.segments, f - 1);
      assert FlatText(env, ib.segments) == b + "";
      assert b + "" == b;
    }
    assert StringifySegs(env, r, t1, true, f) == Step(r, Ok(b + c)) by {
      PeelFirst(env, r, RecursionData(kb), t2, true, f);
    }
    assert StringifySegs(env, r, ia.segments, true, f) == Step(r, Ok(a + (b + c))) by {
      PeelFirst(env, r, Data(Str(a)), t1, true, f);
    }
    assert a + (b + c) == a + b + c;
  }
}
