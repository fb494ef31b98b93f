/**
  The start()/end() scope engine of CacheAbstract on top of the RAM store.

  The engine keeps a stack of in-progress entries (`$loopdata`) and the current
  depth (`$inloop`). PHP never removes a frame when a scope ends, so `frames` can be
  longer than `depth`; `frames[i]` is `$loopdata[i + 1]`. PHP's output buffers are
  an explicit stack of strings; what is echoed with no buffer open reaches `out`.
 */
module Engine {
  import opened Wrappers
  import opened Php
  import opened Keys
  import opened Entries
  import opened Oracles
  import opened RamStore
  import opened Deps
  import opened Render

  /** What `recursivestart` and `recursiveEnd` return: `false`, nothing (after
      printing) or the text. */
  datatype Reply = Miss | Nothing | Text(s: string)

  /** The engine: the store, the frames, the depth, the output buffers, the text
      that left all buffers, and the default lifetime. The store's `enabled` flag
      is the engine's flag: CacheRAM reads the same property. */
  datatype State = State(
    ram: Ram,
    frames: seq<Entry>,
    depth: nat,
    buffers: seq<string>,
    out: string,
    lifetime: int)

  /** A state after an engine call and the call's outcome. */
  datatype Outcome<+T> = Outcome(st: State, res: Result<T>)

  /** Every open scope has a frame, and every open frame a key. */
  predicate Valid(st: State) {
    && st.depth <= |st.frames|
    && forall i :: 0 <= i < st.depth ==> st.frames[i].key.Some?
  }

  /** The engine at the beginning of a request: nothing open. */
  function Init(r: Ram, buffers: seq<string>): (st: State)
    ensures Valid(st) && st.depth == 0
  {
    State(r, [], 0, buffers, "", 0)
  }

  // ---------------------------------------------------------------------------
  // Output buffering

  /** `echo`: appended to the innermost buffer, or to the page when none is open. */
  function Echo(st: State, s: string): (st': State)
    ensures |st.buffers| > 0 ==> |st'.buffers| == |st.buffers| && st'.out == st.out
                                 && st'.buffers[..|st.buffers| - 1] == st.buffers[..|st.buffers| - 1]
                                 && st'.buffers[|st.buffers| - 1] == st.buffers[|st.buffers| - 1] + s
    ensures |st.buffers| == 0 ==> st'.buffers == [] && st'.out == st.out + s
    ensures st' == st.(buffers := st'.buffers, out := st'.out)
  {
    if |st.buffers| == 0 then st.(out := st.out + s)
    else st.(buffers := st.buffers[|st.buffers| - 1 := st.buffers[|st.buffers| - 1] + s])
  }

  /** `ob_start()`: a new empty buffer. */
  function ObStart(st: State): (st': State)
    ensures st'.buffers == st.buffers + [""]
    ensures st' == st.(buffers := st'.buffers)
  {
    st.(buffers := st.buffers + [""])
  }

  /** `ob_get_contents()`: the innermost buffer, or `false` when none is open. */
  function ObGetContents(st: State): (v: PhpValue)
    ensures v.Str? <==> |st.buffers| > 0
    ensures v.Str? ==> v.s == st.buffers[|st.buffers| - 1]
    ensures !v.Str? ==> v == Bool(false)
  {
    if |st.buffers| == 0 then Bool(false) else Str(st.buffers[|st.buffers| - 1])
  }

  /** `ob_clean()`: empties the innermost buffer (no effect when none is open). */
  function ObClean(st: State): (st': State)
    ensures |st'.buffers| == |st.buffers|
    ensures |st.buffers| > 0 ==> st'.buffers[..|st.buffers| - 1] == st.buffers[..|st.buffers| - 1]
                                 && st'.buffers[|st.buffers| - 1] == ""
    ensures st' == st.(buffers := st'.buffers)
  {
    if |st.buffers| == 0 then st else st.(buffers := st.buffers[|st.buffers| - 1 := ""])
  }

  /** `ob_get_clean()`: the innermost buffer's text, and that buffer closed; `false`
      and no change when none is open. */
  function ObGetClean(st: State): (p: (PhpValue, State))
    ensures p.0 == ObGetContents(st)
    ensures |st.buffers| > 0 ==> p.1.buffers == st.buffers[..|st.buffers| - 1]
    ensures |st.buffers| == 0 ==> p.1 == st
    ensures p.1 == st.(buffers := p.1.buffers)
  {
    if |st.buffers| == 0 then (Bool(false), st)
    else (Str(st.buffers[|st.buffers| - 1]), st.(buffers := st.buffers[..|st.buffers| - 1]))
  }

  /** Capturing output: open a buffer, echo, take the buffer back. The text comes
      back exactly and the buffers are as before. */
  lemma CaptureRoundTrip(st: State, s: string)
    ensures ObGetClean(Echo(ObStart(st), s)) == (Str(s), st)
  {
    var st1 := Echo(ObStart(st), s);
    assert st1.buffers[..|st1.buffers| - 1] == st.buffers;
    assert st1.buffers[|st1.buffers| - 1] == "" + s == s;
    assert ObGetClean(st1).1 == st1.(buffers := st.buffers) == st;
  }

  /** Echoing extends the innermost buffer and leaves the outer ones alone. */
  lemma EchoExtendsInnermost(st: State, outer: seq<string>, inner: string, s: string)
    requires st.buffers == outer + [inner]
    ensures Echo(st, s).buffers == outer + [inner + s]
  {
    var b := Echo(st, s).buffers;
    assert b[..|outer|] == outer;
    assert b == b[..|outer|] + [b[|outer|]];
  }

  // ---------------------------------------------------------------------------
  // Accessors

  function Enable(st: State): (st': State)
    ensures st'.ram.enabled && st' == st.(ram := st'.ram) && st'.ram.storage == st.ram.storage
  {
    st.(ram := RamStore.Enable(st.ram))
  }

  function Disable(env: Env, st: State): (st': State)
    ensures !st'.ram.enabled && st' == st.(ram := st'.ram) && st'.ram.storage == st.ram.storage
  {
    st.(ram := RamStore.Disable(env, st.ram))
  }

  /** `isEnabled()`: true exactly when `enable()` would change nothing. */
  function IsEnabled(st: State): (b: bool)
    ensures b <==> Enable(st) == st
  {
    st.ram.enabled
  }

  function SetDefaultLifetime(st: State, lifetime: int): (st': State)
    ensures st'.lifetime == lifetime && st' == st.(lifetime := lifetime)
  {
    st.(lifetime := lifetime)
  }

  /** `getDefaultLifetime()`: setting the lifetime just read changes nothing. */
  function GetDefaultLifetime(st: State): (l: int)
    ensures SetDefaultLifetime(st, l) == st
  {
    st.lifetime
  }

  // ---------------------------------------------------------------------------
  // Starting a scope

  /** The entry a miss opens: keyed `k`, empty, with the given lifetime when it is
      non-zero and the default otherwise. A null lifetime is written 0. */
  function Fresh(st: State, k: Key, lifetime: int): (cd: Entry)
    ensures cd.key == Some(k) && cd.segments == [] && cd.deps == [] && cd.depsHash == ""
    ensures cd.lifetime == (if lifetime != 0 then lifetime else st.lifetime)
  {
    Entry(Some(k), if lifetime != 0 then lifetime else st.lifetime, [], [], "")
  }

  /** `$loopdata[$inloop] = $cd` right after the depth went up to `depth + 1`. */
  function Place(frames: seq<Entry>, depth: nat, cd: Entry): (fs: seq<Entry>)
    requires depth <= |frames|
    ensures |fs| == (if depth < |frames| then |frames| else depth + 1)
    ensures fs[depth] == cd
    ensures forall i :: 0 <= i < |fs| && i != depth ==> fs[i] == frames[i]
  {
    if depth < |frames| then frames[depth := cd] else frames + [cd]
  }

  /** The result of the clash/dependency loop: the frames it left and whether it
      threw. */
  datatype Scan = Scan(frames: seq<Entry>, clash: bool)

  /** The loop over every recorded frame, as written: a frame equal (by value) to
      the fresh one is skipped; a frame keyed `k` throws; every other frame gets the
      dependency. Stale frames above the depth take part. */
  function ScanAll(fs: seq<Entry>, cd: Entry, k: Key): (s: Scan)
    ensures |s.frames| == |fs|
    ensures s.clash <==> exists i :: 0 <= i < |fs| && fs[i] != cd && fs[i].key == Some(k)
    ensures !s.clash ==> forall i :: 0 <= i < |fs| ==>
              s.frames[i] == (if fs[i] == cd then fs[i] else AddDependency(fs[i], k))
    ensures forall i :: 0 <= i < |fs| ==> s.frames[i].key == fs[i].key
    decreases |fs|
  {
    if |fs| == 0 then Scan([], false)
    else if fs[0] != cd && CheckClash(fs[0], k) then Scan(fs, true)
    else
      var t := ScanAll(fs[1..], cd, k);
      var head := if fs[0] == cd then fs[0] else AddDependency(fs[0], k);
      assert forall i :: 1 <= i < |fs| ==> fs[i] == fs[1..][i - 1];
      Scan([head] + t.frames, t.clash)
  }

  /** The miss path of `recursivestart` as written (lines 609-641): push a fresh
      frame; when nested, move the parent's pending output into the parent, run
      the clash/dependency loop over every recorded frame, then record the child in
      the parent; finally open a buffer for the new scope. */
  function Push(st: State, k: Key, lifetime: int): (o: Outcome<Reply>)
    requires Valid(st)
    ensures var fs := Place(st.frames, st.depth, Fresh(st, k, lifetime));
            o.res.Err? <==> st.depth > 0 && exists i :: 0 <= i < |fs| && fs[i] != Fresh(st, k, lifetime) && fs[i].key == Some(k)
    ensures o.res.Err? ==> o.res.error == KeyClash && o.st.depth == st.depth + 1
    ensures o.res.Ok? ==> o.res.value == Miss && Valid(o.st)
    ensures o.res.Ok? ==> o.st.depth == st.depth + 1 && o.st.frames[st.depth] == Fresh(st, k, lifetime)
    ensures o.res.Ok? ==> o.st.buffers == ObStart(ObClean(st)).buffers || st.depth == 0
    ensures o.res.Ok? && st.depth == 0 ==> o.st.buffers == st.buffers + [""]
    ensures o.st.ram == st.ram && o.st.out == st.out && o.st.lifetime == st.lifetime
    ensures o.res.Ok? && st.depth > 0 ==>
              var fs := Place(st.frames, st.depth, Fresh(st, k, lifetime));
              var parent := st.frames[st.depth - 1];
              var data := ObGetContents(st);
              && o.st.frames[st.depth - 1].segments == parent.segments + (if Truthy(data) then [Data(data)] else []) + [RecursionData(k)]
              && o.st.frames[st.depth - 1].deps == parent.deps + (if parent == Fresh(st, k, lifetime) then [] else [k]) + [k]
              && o.st.frames[st.depth - 1].key == parent.key && o.st.frames[st.depth - 1].lifetime == parent.lifetime
              && o.st.frames[st.depth - 1].depsHash == ""
              && |o.st.frames| == |fs|
              && forall i :: 0 <= i < |fs| && i != st.depth - 1 && i != st.depth ==>
                   o.st.frames[i] == (if fs[i] == Fresh(st, k, lifetime) then fs[i] else AddDependency(fs[i], k))
  {
    if st.depth == 0 then
      Outcome(ObStart(st.(frames := Place(st.frames, 0, Fresh(st, k, lifetime)), depth := 1)), Ok(Miss))
    else Nest(st, k, lifetime)
  }

  /** The nested miss of `Push`: the loop runs over every recorded frame after the
      new one is placed; without a clash the parent also gets the pending output and
      the reference to the child, and a buffer is opened. */
  function Nest(st: State, k: Key, lifetime: int): (o: Outcome<Reply>)
    requires Valid(st) && st.depth > 0
    ensures var fs := Place(st.frames, st.depth, Fresh(st, k, lifetime));
            o.res.Err? <==> exists i :: 0 <= i < |fs| && fs[i] != Fresh(st, k, lifetime) && fs[i].key == Some(k)
    ensures o.res.Err? ==> o.res.error == KeyClash && o.st.depth == st.depth + 1
    ensures o.st.ram == st.ram && o.st.out == st.out && o.st.lifetime == st.lifetime
    ensures o.res.Ok? ==>
              var fs := Place(st.frames, st.depth, Fresh(st, k, lifetime));
              var parent := st.frames[st.depth - 1];
              var data := ObGetContents(st);
              && o.res.value == Miss && o.st.buffers == ObStart(ObClean(st)).buffers
              && o.st.depth == st.depth + 1 && |o.st.frames| == |fs| && o.st.frames[st.depth] == Fresh(st, k, lifetime)
              && o.st.frames[st.depth - 1].segments == parent.segments + (if Truthy(data) then [Data(data)] else []) + [RecursionData(k)]
              && o.st.frames[st.depth - 1].deps == parent.deps + (if parent == Fresh(st, k, lifetime) then [] else [k]) + [k]
              && o.st.frames[st.depth - 1].key == parent.key && o.st.frames[st.depth - 1].lifetime == parent.lifetime
              && o.st.frames[st.depth - 1].depsHash == ""
              && forall i :: 0 <= i < |fs| && i != st.depth - 1 && i != st.depth ==>
                   o.st.frames[i] == (if fs[i] == Fresh(st, k, lifetime) then fs[i] else AddDependency(fs[i], k))
  {
    var cd := Fresh(st, k, lifetime);
    var fs := Place(st.frames, st.depth, cd);
    var sc := ScanAll(fs, cd, k);
    var st1 := ObClean(st);
    if sc.clash then Outcome(st1.(frames := sc.frames, depth := st.depth + 1), Err(KeyClash))
    else
      var p := AppendRecursionData(AppendData(sc.frames[st.depth - 1], ObGetContents(st)), cd).value;
      Outcome(ObStart(st1.(frames := sc.frames[st.depth - 1 := p], depth := st.depth + 1)), Ok(Miss))
  }

  /** No two open scopes share a key. */
  predicate DistinctOpen(st: State)
    requires Valid(st)
  {
    forall i, j :: 0 <= i < j < st.depth ==> st.frames[i].key != st.frames[j].key
  }

  /** Whether some open scope is keyed `k`. */
  predicate IsOpen(st: State, k: Key)
    requires Valid(st)
  {
    exists i :: 0 <= i < st.depth && st.frames[i].key == Some(k)
  }

  /** The miss path with the clash check as evidently intended: only the open
      ancestors are examined, by position; a clash is reported before anything
      changes; every ancestor gets the dependency. Frames of closed scopes are
      dropped. */
  function PushFixed(st: State, k: Key, lifetime: int): (o: Outcome<Reply>)
    requires Valid(st)
    ensures o.res.Err? <==> IsOpen(st, k)
    ensures o.res.Err? ==> o == Outcome(st, Err(KeyClash))
    ensures o.res.Ok? ==> o.res.value == Miss && Valid(o.st)
    ensures o.res.Ok? ==> o.st.depth == st.depth + 1 && |o.st.frames| == o.st.depth && o.st.frames[st.depth] == Fresh(st, k, lifetime)
    ensures o.res.Ok? ==> forall i :: 0 <= i < st.depth - 1 ==> o.st.frames[i] == AddDependency(st.frames[i], k)
    ensures o.res.Ok? && st.depth > 0 ==>
              var parent := st.frames[st.depth - 1];
              var data := ObGetContents(st);
              && o.st.frames[st.depth - 1].segments == parent.segments + (if Truthy(data) then [Data(data)] else []) + [RecursionData(k)]
              && o.st.frames[st.depth - 1].deps == parent.deps + [k, k]
    ensures Valid(st) && DistinctOpen(st) && o.res.Ok? ==> DistinctOpen(o.st)
    ensures o.st.ram == st.ram && o.st.out == st.out
  {
    if IsOpen(st, k) then Outcome(st, Err(KeyClash))
    else if st.depth == 0 then Outcome(ObStart(st.(frames := [Fresh(st, k, lifetime)], depth := 1)), Ok(Miss))
    else NestFixed(st, k, lifetime)
  }

  /** The nested miss of `PushFixed`: every open ancestor gets the dependency, the
      parent also the pending output and the reference, and the child goes on top
      of the open frames. */
  function NestFixed(st: State, k: Key, lifetime: int): (o: Outcome<Reply>)
    requires Valid(st) && st.depth > 0 && !IsOpen(st, k)
    ensures o.res == Ok(Miss) && o.st.ram == st.ram && o.st.out == st.out
    ensures o.st.depth == st.depth + 1 && |o.st.frames| == o.st.depth && o.st.frames[st.depth] == Fresh(st, k, lifetime)
    ensures forall i :: 0 <= i < st.depth ==> o.st.frames[i].key == st.frames[i].key
    ensures forall i :: 0 <= i < st.depth - 1 ==> o.st.frames[i] == AddDependency(st.frames[i], k)
    ensures var parent := st.frames[st.depth - 1];
            var data := ObGetContents(st);
            && o.st.frames[st.depth - 1].segments == parent.segments + (if Truthy(data) then [Data(data)] else []) + [RecursionData(k)]
            && o.st.frames[st.depth - 1].deps == parent.deps + [k, k]
  {
    var cd := Fresh(st, k, lifetime);
    var marked := MarkAll(st.frames[..st.depth], k);
    var p := AppendRecursionData(AppendData(marked[st.depth - 1], ObGetContents(st)), cd).value;
    Outcome(ObStart(ObClean(st).(frames := marked[st.depth - 1 := p] + [cd], depth := st.depth + 1)), Ok(Miss))
  }

  /** Every frame with the dependency `k` added. */
  function MarkAll(fs: seq<Entry>, k: Key): (m: seq<Entry>)
    ensures |m| == |fs|
    ensures forall i :: 0 <= i < |fs| ==> m[i] == AddDependency(fs[i], k)
  {
    seq(|fs|, i requires 0 <= i < |fs| => AddDependency(fs[i], k))
  }

  /** Which clash/dependency loop a start uses. */
  datatype ClashCheck = AsWritten | OpenAncestors

  /** What a miss does: with `$fail` it throws, otherwise it pushes a frame. */
  function MissPath(st: State, k: Key, lifetime: int, fail: bool, check: ClashCheck): (o: Outcome<Reply>)
    requires Valid(st)
    ensures fail ==> o == Outcome(st, Err(NotCached))
    ensures !fail && check == AsWritten ==> o == Push(st, k, lifetime)
    ensures !fail && check == OpenAncestors ==> o == PushFixed(st, k, lifetime)
    ensures o.res.Ok? ==> Valid(o.st) && o.res.value == Miss && o.st.depth == st.depth + 1
    ensures o.st.ram == st.ram
  {
    if fail then Outcome(st, Err(NotCached))
    else if check == AsWritten then Push(st, k, lifetime)
    else PushFixed(st, k, lifetime)
  }

  /** The `getData` call and the second `checkUpdateToDate` at the top of
      `recursivestart`: an up-to-date entry, none (NotCached is swallowed), or
      another error. */
  function Lookup(env: Env, r: Ram, k: Key): (s: Step<Option<Entry>>)
    ensures var g := GetData(env, r, k);
            g.res.Ok? ==> s == Step(g.ram, Ok(Some(g.res.value)))
    ensures var g := GetData(env, r, k);
            g.res == Err(NotCached) ==> s == Step(g.ram, Ok(None))
    ensures s.res.Err? ==> s.res.error != NotCached
    ensures s.ram.enabled == r.enabled
    ensures s.res.Err? ==> s.res.error != KeyClash
  {
    var g := GetData(env, r, k);
    match g.res
    case Err(e) => if e == NotCached then Step(g.ram, Ok(None)) else Step(g.ram, Err(e))
    case Ok(cd) =>
      CheckAgain(env, r, cd);
      var c := CheckUpdateToDate(env, g.ram, cd);
      match c.res
      case Ok(b) => Step(c.ram, Ok(if b then Some(cd) else None))
      case Err(e) => if e == NotCached then Step(c.ram, Ok(Some(cd))) else Step(c.ram, Err(e))
  }

  /** Checking an up-to-date entry again, against the store the first check left,
      finds it up to date and changes nothing. */
  lemma CheckAgain(env: Env, r: Ram, e: Entry)
    requires CheckUpdateToDate(env, r, e).res == Ok(true)
    ensures var c := CheckUpdateToDate(env, r, e);
            CheckUpdateToDate(env, c.ram, e) == c
  {
    if |e.deps| > 0 {
      GenerateIdempotent(env, r, e);
    }
  }

  /** The hit path of `recursivestart`: the up-to-date entry `cd` is rendered and
      its text returned (and echoed when printing). If rendering meets NotCached
      the key is deleted; inside a scope the exception is passed on, at the top the
      miss path runs instead. */
  function HitPath(env: Env, st: State, k: Key, cd: Entry, lifetime: int, printIt: bool, fail: bool, check: ClashCheck): (o: Outcome<Reply>)
    requires Valid(st)
    ensures Valid(o.st) && o.st.ram.enabled == st.ram.enabled
    ensures o.res.Ok? ==> o.res.value != Nothing
    ensures o.res.Ok? && o.res.value.Text? ==>
              o.st.frames == st.frames && o.st.depth == st.depth
              && o.st.buffers == (if printIt then Echo(st, o.res.value.s).buffers else st.buffers)
    ensures var s := Stringify(env, st.ram, cd, true);
            s.res.Ok? ==> o.res == Ok(Text(s.res.value))
    ensures o.res == Err(KeyClash) || o.res == Ok(Miss) ==>
              o == MissPath(st.(ram := o.st.ram), k, lifetime, fail, check)
    ensures var s := Stringify(env, st.ram, cd, true);
            s.res == Err(NotCached) && ValidArgs(k) ==>
              && At(env, o.st.ram, k) == None
              && (forall k2 :: !SameSlot(env, st.ram.ns, k, k2) ==> At(env, o.st.ram, k2) == At(env, s.ram, k2))
              && (st.depth > 0 ==> o.res == Err(NotCached) && o.st.depth == st.depth && o.st.frames == st.frames)
              && (st.depth == 0 ==> o == MissPath(st.(ram := o.st.ram), k, lifetime, fail, check))
  {
    var s := Stringify(env, st.ram, cd, true);
    var st2 := st.(ram := s.ram);
    match s.res
    case Ok(t) => Outcome(if printIt then Echo(st2, t) else st2, Ok(Text(t)))
    case Err(e) =>
      if e != NotCached then Outcome(st2, Err(e))
      else
        var r3 := Delete(env, st2.ram, k).ram;
        if st.depth > 0 then Outcome(st.(ram := r3), Err(NotCached))
        else MissPath(st.(ram := r3), k, lifetime, fail, check)
  }

  /** `recursivestart($k, $lifetime, $print, $fail)` with the chosen clash loop.
      Disabled, it returns false. An up-to-date entry that renders is a hit: its
      text is returned (and echoed when printing) and no frame is touched. */
  function StartWith(env: Env, st: State, k: Key, lifetime: int, printIt: bool, fail: bool, check: ClashCheck): (o: Outcome<Reply>)
    requires Valid(st)
    ensures !st.ram.enabled ==> o == Outcome(st, Ok(Miss))
    ensures Valid(o.st) && o.st.ram.enabled == st.ram.enabled
    ensures o.res.Ok? ==> o.res.value != Nothing
    ensures o.res.Ok? && o.res.value.Text? ==>
              GetData(env, st.ram, k).res.Ok? && o.st.frames == st.frames && o.st.depth == st.depth
              && o.st.buffers == (if printIt then Echo(st, o.res.value.s).buffers else st.buffers)
    ensures var g := GetData(env, st.ram, k);
            st.ram.enabled && g.res.Ok? && Stringify(env, g.ram, g.res.value, true).res.Ok? ==>
              o.res == Ok(Text(Stringify(env, g.ram, g.res.value, true).res.value))
    ensures var g := GetData(env, st.ram, k);
            st.ram.enabled && g.res == Err(NotCached) ==> o == MissPath(st.(ram := g.ram), k, lifetime, fail, check)
    ensures o.res == Err(KeyClash) || (o.res == Ok(Miss) && st.ram.enabled) ==>
              o == MissPath(st.(ram := o.st.ram), k, lifetime, fail, check)
  {
    if !st.ram.enabled then Outcome(st, Ok(Miss))
    else
      var look := Lookup(env, st.ram, k);
      match look.res
      case Err(e) => Outcome(st.(ram := look.ram), Err(e))
      case Ok(found) =>
        if found.None? then MissPath(st.(ram := look.ram), k, lifetime, fail, check)
        else HitPath(env, st.(ram := look.ram), k, found.value, lifetime, printIt, fail, check)
  }

  /** `recursivestart` as written. */
  function RecursiveStart(env: Env, st: State, k: Key, lifetime: int, printIt: bool, fail: bool): (o: Outcome<Reply>)
    requires Valid(st)
    ensures !st.ram.enabled ==> o == Outcome(st, Ok(Miss))
    ensures Valid(o.st)
    ensures o.res.Ok? && o.res.value.Text? ==> o.st.frames == st.frames && o.st.depth == st.depth
    ensures o.res.Ok? && o.res.value == Miss && st.ram.enabled ==>
              !fail && o.st.depth == st.depth + 1 && o.st.frames[st.depth].key == Some(k)
  {
    StartWith(env, st, k, lifetime, printIt, fail, AsWritten)
  }

  /** `recursivestart` with the clash check as evidently intended. A start that
      opens a scope never leaves two open scopes with one key. */
  function RecursiveStartFixed(env: Env, st: State, k: Key, lifetime: int, printIt: bool, fail: bool): (o: Outcome<Reply>)
    requires Valid(st)
    ensures Valid(o.st)
    ensures o.res == Err(KeyClash) ==> IsOpen(st, k)
    ensures o.res.Ok? && o.res.value == Miss && st.ram.enabled ==> !IsOpen(st, k)
    ensures DistinctOpen(st) && o.res.Ok? ==> DistinctOpen(o.st)
  {
    var o := StartWith(env, st, k, lifetime, printIt, fail, OpenAncestors);
    var st' := st.(ram := o.st.ram);
    assert IsOpen(st', k) == IsOpen(st, k) && DistinctOpen(st') == DistinctOpen(st);
    o
  }

  /** `start($k, ...)`: `extraSub` leaves the key alone when the application hook
      is not defined, and the call is `recursivestart`. */
  function Start(env: Env, st: State, k: Key, lifetime: int, printIt: bool, fail: bool): (o: Outcome<Reply>)
    requires Valid(st)
    ensures o == RecursiveStart(env, st, k, lifetime, printIt, fail)
    ensures Valid(o.st)
  {
    RecursiveStart(env, st, k, lifetime, printIt, fail)
  }

  // ---------------------------------------------------------------------------
  // Ending a scope

  /** The part of `recursiveEnd` that saves the innermost scope: the captured
      output is appended to its frame, the dependency hash is generated (only for
      its effect on the store: missing versions are initialised), and `storeData`
      writes the entry under the frame's key with no lifetime. */
  function SaveInnermost(env: Env, st: State): (s: Step<Saved>)
    requires Valid(st) && st.depth > 0
    ensures s.res.Ok? ==>
              var cd := AppendData(st.frames[st.depth - 1], ObGetContents(st));
              s.res.value.entry == cd.(depsHash := s.res.value.entry.depsHash)
    ensures s.res.Ok? && st.ram.enabled ==>
              s.res.value.stored && At(env, s.ram, st.frames[st.depth - 1].key.value) == Some(Stored(s.res.value.entry))
    ensures s.ram.enabled == st.ram.enabled && s.ram.ns == st.ram.ns
  {
    var cd := AppendData(st.frames[st.depth - 1], ObGetContents(st));
    var g := GenerateDependenciesHash(env, st.ram, cd);
    if g.res.Err? then Step(g.ram, Err(g.res.error)) else StoreData(env, g.ram, cd, 0)
  }

  /** `recursiveEnd($print)`: the innermost buffer is closed and its text appended
      to the innermost frame; the dependency hash is generated (and dropped), the
      frame is stored under its key with lifetime 0 (`storeData` is called without
      one), and the depth goes down. Nested, it returns false; at the top the
      frame is rendered and echoed (returning nothing) or returned. With no scope
      open the frame is null and the call is fatal. */
  function RecursiveEnd(env: Env, st: State, printIt: bool): (o: Outcome<Reply>)
    requires Valid(st)
    ensures !st.ram.enabled ==> o == Outcome(st, Ok(Miss))
    ensures st.ram.enabled && st.depth == 0 ==> o == Outcome(ObGetClean(st).1, Err(Fatal(NoOpenScope)))
    ensures st.ram.enabled && st.depth > 0 ==> o == CloseScope(env, st, printIt)
    ensures Valid(o.st) && |o.st.frames| == |st.frames|
    ensures o.st.ram.enabled == st.ram.enabled
    ensures o.res.Ok? && o.res.value.Text? ==> st.depth == 1 && o.st.depth == 0
  {
    if !st.ram.enabled then Outcome(st, Ok(Miss))
    else if st.depth == 0 then Outcome(ObGetClean(st).1, Err(Fatal(NoOpenScope)))
    else CloseScope(env, st, printIt)
  }

  /** `recursiveEnd` with the store enabled and a scope open: the innermost frame
      is saved and the depth drops by one. */
  function CloseScope(env: Env, st: State, printIt: bool): (o: Outcome<Reply>)
    requires Valid(st) && st.ram.enabled && st.depth > 0
    ensures st.depth > 1 ==> o == CloseInner(env, st)
    ensures st.depth == 1 ==> o == CloseOuter(env, st, printIt)
    ensures Valid(o.st) && o.st.ram.enabled
  {
    if st.depth > 1 then CloseInner(env, st) else CloseOuter(env, st, printIt)
  }

  /** `st` after its innermost scope closed: the depth is one lower, the innermost
      frame got the captured output appended (when truthy) and keeps its key and
      dependencies, and every other frame is unchanged. */
  predicate Closed(st: State, st': State)
    requires Valid(st) && st.depth > 0
  {
    var d := st.depth - 1;
    var data := ObGetContents(st);
    && st'.depth == d && |st'.frames| == |st.frames|
    && st'.frames[d].segments == st.frames[d].segments + (if Truthy(data) then [Data(data)] else [])
    && st'.frames[d].deps == st.frames[d].deps && st'.frames[d].key == st.frames[d].key
    && (forall i :: 0 <= i < |st.frames| && i != d ==> st'.frames[i] == st.frames[i])
  }

  /** Closing a nested scope: its entry is saved under its key and `false` is
      returned; the enclosing buffer is back in charge and nothing is printed. */
  function CloseInner(env: Env, st: State): (o: Outcome<Reply>)
    requires Valid(st) && st.ram.enabled && st.depth > 1
    ensures Valid(o.st) && o.st.ram.enabled && |o.st.frames| == |st.frames|
    ensures o.res.Ok? ==>
              var sv := SaveInnermost(env, st);
              && sv.res.Ok? && o.res.value == Miss && Closed(st, o.st)
              && o.st.frames[st.depth - 1] == sv.res.value.entry && o.st.ram == sv.ram
              && At(env, o.st.ram, st.frames[st.depth - 1].key.value) == Some(Stored(o.st.frames[st.depth - 1]))
              && o.st.buffers == ObGetClean(st).1.buffers && o.st.out == st.out
  {
    var (data, st1) := ObGetClean(st);
    var d := st.depth - 1;
    var sv := SaveInnermost(env, st);
    match sv.res
    case Err(e) => Outcome(st1.(frames := st.frames[d := AppendData(st.frames[d], data)], ram := sv.ram), Err(e))
    case Ok(saved) => Outcome(AfterSave(st, sv.ram, saved.entry), Ok(Miss))
  }

  /** The engine once the innermost frame was saved as `e` into the store `r`. */
  function AfterSave(st: State, r: Ram, e: Entry): (st': State)
    requires Valid(st) && st.depth > 0
    requires e == AppendData(st.frames[st.depth - 1], ObGetContents(st)).(depsHash := e.depsHash)
    ensures Closed(st, st') && Valid(st') && st'.frames[st.depth - 1] == e
    ensures st'.ram == r && st'.buffers == ObGetClean(st).1.buffers && st'.out == st.out
  {
    ObGetClean(st).1.(ram := r, frames := st.frames[st.depth - 1 := e], depth := st.depth - 1)
  }

  /** Closing the outermost scope: its entry is saved, then rendered with
      recursion against the store the save left, and the text is printed or
      returned. */
  function CloseOuter(env: Env, st: State, printIt: bool): (o: Outcome<Reply>)
    requires Valid(st) && st.ram.enabled && st.depth == 1
    ensures Valid(o.st) && o.st.ram.enabled && |o.st.frames| == |st.frames|
    ensures o.res.Ok? ==>
              var sv := SaveInnermost(env, st);
              var rest := ObGetClean(st).1;
              && sv.res.Ok? && Closed(st, o.st) && o.st.frames[0] == sv.res.value.entry
              && var s := Stringify(env, sv.ram, sv.res.value.entry, true);
              && s.res.Ok? && o.st.ram == s.ram
              && (printIt ==> o.res.value == Nothing && o.st.buffers == Echo(rest, s.res.value).buffers
                                && o.st.out == Echo(rest, s.res.value).out)
              && (!printIt ==> o.res.value == Text(s.res.value) && o.st.buffers == rest.buffers && o.st.out == st.out)
  {
    var (data, st1) := ObGetClean(st);
    var sv := SaveInnermost(env, st);
    match sv.res
    case Err(e) => Outcome(st1.(frames := st.frames[0 := AppendData(st.frames[0], data)], ram := sv.ram), Err(e))
    case Ok(saved) => Finish(env, AfterSave(st, sv.ram, saved.entry), saved.entry, printIt)
  }

  /** On a store where every reference of the saved outermost entry can be
      followed, `end()` returns or prints the entry's expansion, and the store keeps
      what the save left, the entry included. */
  lemma OuterReplyExpands(env: Env, st: State, printIt: bool)
    requires Valid(st) && st.ram.enabled && st.depth == 1
    requires var sv := SaveInnermost(env, st);
             sv.res.Ok? && Ready(env, sv.ram, sv.res.value.entry.segments, env.depthLimit)
    ensures var sv := SaveInnermost(env, st);
            var e := sv.res.value.entry;
            var t := Expand(env, sv.ram, e.segments, env.depthLimit);
            var o := RecursiveEnd(env, st, printIt);
            && (!printIt ==> o == Outcome(AfterSave(st, sv.ram, e), Ok(Text(t))))
            && (printIt ==> o == Outcome(Echo(AfterSave(st, sv.ram, e), t), Ok(Nothing)))
            && At(env, o.st.ram, st.frames[0].key.value) == Some(Stored(e))
  {
  }

  /** The outermost scope closed: its saved entry is rendered with recursion, then
      printed or returned. */
  function Finish(env: Env, st: State, e: Entry, printIt: bool): (o: Outcome<Reply>)
    ensures var s := Stringify(env, st.ram, e, true);
            && (s.res.Err? ==> o == Outcome(st.(ram := s.ram), Err(s.res.error)))
            && (s.res.Ok? && printIt ==> o == Outcome(Echo(st.(ram := s.ram), s.res.value), Ok(Nothing)))
            && (s.res.Ok? && !printIt ==> o == Outcome(st.(ram := s.ram), Ok(Text(s.res.value))))
  {
    var s := Stringify(env, st.ram, e, true);
    match s.res
    case Err(err) => Outcome(st.(ram := s.ram), Err(err))
    case Ok(t) =>
      if printIt then Outcome(Echo(st.(ram := s.ram), t), Ok(Nothing))
      else Outcome(st.(ram := s.ram), Ok(Text(t)))
  }

  /** `end($print)` is `recursiveEnd`. */
  function End(env: Env, st: State, printIt: bool): (o: Outcome<Reply>)
    requires Valid(st)
    ensures o == RecursiveEnd(env, st, printIt)
    ensures Valid(o.st)
  {
    RecursiveEnd(env, st, printIt)
  }

  // ---------------------------------------------------------------------------
  // Callbacks

  /** `appendCallback($callback)`: a non-callable argument fails the `callable`
      type check; disabled or outside any scope it returns false; otherwise the
      pending output and then the callback are added to the innermost frame. */
  function AppendCallbackToScope(env: Env, st: State, cb: Callback): (o: Outcome<bool>)
    requires Valid(st)
    ensures !env.isCallable(cb) ==> o == Outcome(st, Err(Fatal(NotCallable)))
    ensures env.isCallable(cb) && (!st.ram.enabled || st.depth == 0) ==> o == Outcome(st, Ok(false))
    ensures o.res == Ok(true) ==>
              var d := st.depth - 1;
              var data := ObGetContents(st);
              && st.depth > 0 && o.st.depth == st.depth && |o.st.frames| == |st.frames|
              && o.st.frames[d].segments == st.frames[d].segments + (if Truthy(data) then [Data(data)] else []) + [Call(cb)]
              && o.st.frames[d].deps == st.frames[d].deps
              && (forall i :: 0 <= i < |st.frames| && i != d ==> o.st.frames[i] == st.frames[i])
              && o.st.buffers == ObClean(st).buffers
    ensures Valid(o.st)
  {
    if !env.isCallable(cb) then Outcome(st, Err(Fatal(NotCallable)))
    else if !st.ram.enabled || st.depth == 0 then Outcome(st, Ok(false))
    else
      var d := st.depth - 1;
      var f := Entries.AppendCallback(AppendData(st.frames[d], ObGetContents(st)), cb);
      Outcome(ObClean(st).(frames := st.frames[d := f]), Ok(true))
  }

  /** The PHP value a start returns, for the truthiness test in `startCallback`. */
  function ReplyValue(x: Reply): PhpValue {
    match x
    case Miss => Bool(false)
    case Nothing => Null
    case Text(s) => Str(s)
  }

  /** `startCallback($k, $c, $lifetime)` as written. The callback is modelled by the
      text it echoes. Any falsy return of `start` counts as a miss, including a hit
      whose text is '' or '0'. */
  function StartCallback(env: Env, st: State, k: Key, body: string, lifetime: int): (o: Outcome<Reply>)
    requires Valid(st)
    ensures var s := Start(env, st, k, lifetime, true, false);
            s.res.Ok? && Truthy(ReplyValue(s.res.value)) ==> o == s
    ensures var s := Start(env, st, k, lifetime, true, false);
            s.res.Ok? && !Truthy(ReplyValue(s.res.value)) ==>
              o.res.Ok? ==> o.res.value == s.res.value
    ensures Valid(o.st)
  {
    var s := Start(env, st, k, lifetime, true, false);
    match s.res
    case Err(_) => s
    case Ok(data) =>
      if Truthy(ReplyValue(data)) then s
      else
        var e := End(env, Echo(s.st, body), true);
        if e.res.Err? then Outcome(e.st, Err(e.res.error)) else Outcome(e.st, Ok(data))
  }

  /** `startCallback` as evidently intended: the callback runs and the scope is
      closed only when `start` reported a miss. A hit is returned as is. */
  function StartCallbackFixed(env: Env, st: State, k: Key, body: string, lifetime: int): (o: Outcome<Reply>)
    requires Valid(st)
    ensures var s := Start(env, st, k, lifetime, true, false);
            s.res.Ok? && s.res.value.Text? ==> o == s
    ensures var s := Start(env, st, k, lifetime, true, false);
            s.res.Ok? && s.res.value == Miss && st.ram.enabled ==>
              o.res.Ok? ==> o.st.depth == st.depth
    ensures Valid(o.st)
  {
    var s := Start(env, st, k, lifetime, true, false);
    match s.res
    case Err(_) => s
    case Ok(data) =>
      if data != Miss then s
      else
        var e := End(env, Echo(s.st, body), true);
        if e.res.Err? then Outcome(e.st, Err(e.res.error)) else Outcome(e.st, Ok(data))
  }
}
