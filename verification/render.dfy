/**
  `CacheData::stringify`: an entry's segments turned into text, in order. Data is
  emitted as is, a callback is called when it is callable, and (only when
  recursing) a 'recursion' segment reads the raw value under its key while a
  'recursiondata' segment fetches the child entry and renders it in turn.
 */
module Render {
  import opened Wrappers
  import opened Php
  import opened Keys
  import opened Entries
  import opened Oracles
  import opened RamStore
  import opened Deps

  /** What a callback segment contributes: its return value, or nothing when it is
      not callable. */
  function CallText(env: Env, cb: Callback): string {
    if env.isCallable(cb) then ToStr(env.call(cb)) else ""
  }

  /** Whether a segment needs the store to be rendered. */
  predicate NeedsStore(s: Segment, recurse: bool) {
    recurse && IsLink(s)
  }

  /** The text of the segments that do not need the store: data and callbacks;
      references contribute nothing. This is what rendering produces without
      recursion. */
  function FlatText(env: Env, segs: seq<Segment>): string {
    if |segs| == 0 then "" else SegmentFlat(env, segs[0]) + FlatText(env, segs[1..])
  }

  function SegmentFlat(env: Env, seg: Segment): string {
    match seg
    case Data(p) => ToStr(p)
    case Call(cb) => CallText(env, cb)
    case _ => ""
  }

  /** One segment of `stringify`. `fuel` bounds the nesting depth of rendered
      children; running out stands for PHP exhausting its stack. */
  function SegmentText(env: Env, r: Ram, seg: Segment, recurse: bool, fuel: nat): (s: Step<string>)
    ensures !NeedsStore(seg, recurse) ==> s == Step(r, Ok(SegmentFlat(env, seg)))
    ensures seg.Recursion? && recurse ==>
              s.ram == r && (s.res.Ok? <==> Get(env, r, seg.key).Ok?)
    ensures seg.Recursion? && recurse ==>
              var v := Get(env, r, seg.key);
              && (v.Ok? ==> s.res == Ok(ValueText(env, v.value)))
              && (v.Err? ==> s.res == Err(v.error))
    ensures seg.RecursionData? && recurse && fuel == 0 ==> s == Step(r, Err(Fatal(DepthExhausted)))
    ensures seg.RecursionData? && recurse && fuel > 0 ==>
              var g := GetData(env, r, seg.key);
              && (g.res.Err? ==> s == Step(g.ram, Err(g.res.error)))
              && (g.res.Ok? ==> s == StringifySegs(env, g.ram, g.res.value.segments, true, fuel - 1))
    decreases fuel, 0
    ensures s.ram.enabled == r.enabled && s.ram.ns == r.ns
    ensures s.res.Err? ==> s.res.error != KeyClash
  {
    match seg
    case Data(p) => Step(r, Ok(ToStr(p)))
    case Call(cb) => Step(r, Ok(CallText(env, cb)))
    case Recursion(k) =>
      if !recurse then Step(r, Ok(""))
      else
        (match Get(env, r, k)
         case Ok(v) => Step(r, Ok(ValueText(env, v)))
         case Err(e) => Step(r, Err(e)))
    case RecursionData(k) =>
      if !recurse then Step(r, Ok(""))
      else if fuel == 0 then Step(r, Err(Fatal(DepthExhausted)))
      else
        var g := GetData(env, r, k);
        match g.res
        case Err(e) => Step(g.ram, Err(e))
        case Ok(child) => StringifySegs(env, g.ram, child.segments, true, fuel - 1)
  }

  /** The segments rendered left to right and concatenated; the first failure
      stops the rendering and is passed on with the store as it then stood. */
  function StringifySegs(env: Env, r: Ram, segs: seq<Segment>, recurse: bool, fuel: nat): (s: Step<string>)
    decreases fuel, |segs|
    ensures s.ram.enabled == r.enabled && s.ram.ns == r.ns
    ensures s.res.Err? ==> s.res.error != KeyClash
  {
    if |segs| == 0 then Step(r, Ok(""))
    else
      var h := SegmentText(env, r, segs[0], recurse, fuel);
      match h.res
      case Err(e) => Step(h.ram, Err(e))
      case Ok(t) =>
        var rest := StringifySegs(env, h.ram, segs[1..], recurse, fuel);
        match rest.res
        case Err(e) => Step(rest.ram, Err(e))
        case Ok(u) => Step(rest.ram, Ok(t + u))
  }

  /** `$cd->stringify($c, $recurse)`, with the nesting bound of the environment. */
  function Stringify(env: Env, r: Ram, e: Entry, recurse: bool): (s: Step<string>)
    ensures !recurse ==> s == Step(r, Ok(FlatText(env, e.segments)))
    ensures recurse && r.enabled && Ready(env, r, e.segments, env.depthLimit) ==>
              s == Step(r, Ok(Expand(env, r, e.segments, env.depthLimit)))
    ensures s.ram.enabled == r.enabled && s.ram.ns == r.ns
    ensures s.res.Err? ==> s.res.error != KeyClash
  {
    FlatRender(env, r, e.segments, env.depthLimit);
    if recurse && r.enabled && Ready(env, r, e.segments, env.depthLimit) then
      RenderReady(env, r, e.segments, env.depthLimit);
      StringifySegs(env, r, e.segments, recurse, env.depthLimit)
    else
      StringifySegs(env, r, e.segments, recurse, env.depthLimit)
  }

  /** The text an entry stands for, read straight off the store: data and callback
      text, the raw value under a 'recursion' key, and the expansion of the entry
      under a 'recursiondata' key, at most `fuel` levels deep. */
  function Expand(env: Env, r: Ram, segs: seq<Segment>, fuel: nat): string
    decreases fuel, |segs|
  {
    if |segs| == 0 then "" else ExpandSeg(env, r, segs[0], fuel) + Expand(env, r, segs[1..], fuel)
  }

  function ExpandSeg(env: Env, r: Ram, seg: Segment, fuel: nat): string
    decreases fuel, 0
  {
    match seg
    case Data(p) => ToStr(p)
    case Call(cb) => CallText(env, cb)
    case Recursion(k) => if At(env, r, k).Some? then ValueText(env, At(env, r, k).value) else ""
    case RecursionData(k) =>
      if fuel > 0 && At(env, r, k).Some? && At(env, r, k).value.Stored? then
        Expand(env, r, At(env, r, k).value.entry.segments, fuel - 1)
      else ""
  }

  /** Every reference can be followed without a miss: each key is valid and filled,
      each 'recursiondata' key holds an entry that is up to date without touching the
      store, and the nesting stays within `fuel`. */
  predicate Ready(env: Env, r: Ram, segs: seq<Segment>, fuel: nat)
    decreases fuel, |segs|
  {
    |segs| == 0 || (SegReady(env, r, segs[0], fuel) && Ready(env, r, segs[1..], fuel))
  }

  predicate SegReady(env: Env, r: Ram, seg: Segment, fuel: nat)
    decreases fuel, 0
  {
    match seg
    case Recursion(k) => ValidArgs(k) && At(env, r, k).Some?
    case RecursionData(k) =>
      && fuel > 0 && ValidArgs(k) && At(env, r, k).Some? && At(env, r, k).value.Stored?
      && CheckUpdateToDate(env, r, At(env, r, k).value.entry) == Step(r, Ok(true))
      && Ready(env, r, At(env, r, k).value.entry.segments, fuel - 1)
    case _ => true
  }

  /** On a ready store, recursive rendering leaves the store alone, cannot fail, and
      produces the expansion. */
  lemma {:induction false} RenderReady(env: Env, r: Ram, segs: seq<Segment>, fuel: nat)
    requires r.enabled && Ready(env, r, segs, fuel)
    ensures StringifySegs(env, r, segs, true, fuel) == Step(r, Ok(Expand(env, r, segs, fuel)))
    decreases fuel, |segs|
  {
    if |segs| > 0 {
      SegRenderReady(env, r, segs[0], fuel);
      RenderReady(env, r, segs[1..], fuel);
    }
  }

  lemma {:induction false} SegRenderReady(env: Env, r: Ram, seg: Segment, fuel: nat)
    requires r.enabled && SegReady(env, r, seg, fuel)
    ensures SegmentText(env, r, seg, true, fuel) == Step(r, Ok(ExpandSeg(env, r, seg, fuel)))
    decreases fuel, 0
  {
    if seg.RecursionData? {
      RenderReady(env, r, At(env, r, seg.key).value.entry.segments, fuel - 1);
    }
  }

  /** Without recursion rendering does not touch the store, cannot fail, and
      produces exactly the data and callback text. */
  lemma {:induction false} FlatRender(env: Env, r: Ram, segs: seq<Segment>, fuel: nat)
    ensures StringifySegs(env, r, segs, false, fuel) == Step(r, Ok(FlatText(env, segs)))
    decreases |segs|
  {
    if |segs| > 0 {
      FlatRender(env, r, segs[1..], fuel);
    }
  }

  /** Segments that need no store render to their flat text even when recursing. */
  lemma {:induction false} RenderWithoutLinks(env: Env, r: Ram, segs: seq<Segment>, fuel: nat)
    requires forall i :: 0 <= i < |segs| ==> !IsLink(segs[i])
    ensures StringifySegs(env, r, segs, true, fuel) == Step(r, Ok(FlatText(env, segs)))
    decreases |segs|
  {
    if |segs| > 0 {
      assert forall i :: 0 <= i < |segs[1..]| ==> segs[1..][i] == segs[i + 1];
      RenderWithoutLinks(env, r, segs[1..], fuel);
    }
  }

  /** Rendering distributes over concatenation of segment lists: the text of
      `a + b` is the text of `a` followed by the text of `b` rendered against the
      store `a` left behind. */
  lemma {:induction false} RenderAppend(env: Env, r: Ram, a: seq<Segment>, b: seq<Segment>, recurse: bool, fuel: nat)
    requires StringifySegs(env, r, a, recurse, fuel).res.Ok?
    ensures var sa := StringifySegs(env, r, a, recurse, fuel);
            var sb := StringifySegs(env, sa.ram, b, recurse, fuel);
            StringifySegs(env, r, a + b, recurse, fuel) ==
              Step(sb.ram, if sb.res.Ok? then Ok(sa.res.value + sb.res.value) else sb.res)
    decreases |a|, 1
  {
    if |a| == 0 {
      assert a + b == b;
      var sb := StringifySegs(env, r, b, recurse, fuel);
      if sb.res.Ok? {
        assert "" + sb.res.value == sb.res.value;
      }
    } else {
      RenderAppendCons(env, r, a, b, recurse, fuel);
    }
  }

  /** The inductive step of `RenderAppend`: peel the first segment of `a`. */
  lemma {:induction false} RenderAppendCons(env: Env, r: Ram, a: seq<Segment>, b: seq<Segment>, recurse: bool, fuel: nat)
    requires |a| > 0
    requires StringifySegs(env, r, a, recurse, fuel).res.Ok?
    ensures var sa := StringifySegs(env, r, a, recurse, fuel);
            var sb := StringifySegs(env, sa.ram, b, recurse, fuel);
            StringifySegs(env, r, a + b, recurse, fuel) ==
              Step(sb.ram, if sb.res.Ok? then Ok(sa.res.value + sb.res.value) else sb.res)
    decreases |a|, 0
  {
    var h := SegmentText(env, r, a[0], recurse, fuel);
    var tail := StringifySegs(env, h.ram, a[1..], recurse, fuel);
    var whole := StringifySegs(env, h.ram, a[1..] + b, recurse, fuel);
    assert h.res.Ok? && tail.res.Ok? &&
           StringifySegs(env, r, a, recurse, fuel) == Step(tail.ram, Ok(h.res.value + tail.res.value)) by {
      assert a == [a[0]] + a[1..];
      PeelFirst(env, r, a[0], a[1..], recurse, fuel);
    }
    assert StringifySegs(env, r, a + b, recurse, fuel) ==
             (if whole.res.Err? then whole else Step(whole.ram, Ok(h.res.value + whole.res.value))) by {
      assert a + b == [a[0]] + (a[1..] + b);
      PeelFirst(env, r, a[0], a[1..] + b, recurse, fuel);
    }
    RenderAppend(env, h.ram, a[1..], b, recurse, fuel);
    var sb := StringifySegs(env, tail.ram, b, recurse, fuel);
    if sb.res.Ok? {
      assert h.res.value + (tail.res.value + sb.res.value) == (h.res.value + tail.res.value) + sb.res.value;
    }
  }

  /** Rendering `[x] + rest` renders `x`, then `rest` against the store `x` left. */
  lemma PeelFirst(env: Env, r: Ram, x: Segment, rest: seq<Segment>, recurse: bool, fuel: nat)
    ensures var h := SegmentText(env, r, x, recurse, fuel);
            var t := StringifySegs(env, h.ram, rest, recurse, fuel);
            StringifySegs(env, r, [x] + rest, recurse, fuel) ==
              if h.res.Err? then Step(h.ram, Err(h.res.error))
              else if t.res.Err? then t
              else Step(t.ram, Ok(h.res.value + t.res.value))
  {
    assert ([x] + rest)[0] == x;
    assert ([x] + rest)[1..] == rest;
  }

  /** The text of flat segments distributes over concatenation. */
  lemma {:induction false} FlatTextAppend(env: Env, a: seq<Segment>, b: seq<Segment>)
    ensures FlatText(env, a + b) == FlatText(env, a) + FlatText(env, b)
    decreases |a|
  {
    if |a| == 0 {
      assert a + b == b;
    } else {
      assert (a + b)[1..] == a[1..] + b;
      FlatTextAppend(env, a[1..], b);
    }
  }
}
