/**
  CacheData, the unit of cached content, and its operations that do not touch a
  store: an ordered list of tagged segments plus a list of dependency keys and the
  memoised hash of the dependencies' versions.
 */
module Entries {
  import opened Wrappers
  import opened Php
  import opened Keys

  /** A callable reference (a function name or similar). Only its identity is kept. */
  datatype Callback = Callback(name: string)

  /** One element of `$data`, tagged by its `'type'`. */
  datatype Segment =
    | Data(payload: PhpValue)      // 'data': literal content
    | Call(cb: Callback)           // 'callback': called every time the entry is rendered
    | Recursion(key: Key)          // 'recursion': the raw value stored under the key
    | RecursionData(key: Key)      // 'recursiondata': the entry stored under the key, rendered

  /** A CacheData object. `key` is unset until `setKey`; `depsHash` is the memoised
      dependency hash ('' when not computed). */
  datatype Entry = Entry(
    key: Option<Key>,
    lifetime: int,
    segments: seq<Segment>,
    deps: seq<Key>,
    depsHash: string)

  /** Whether a segment refers to another entry by key. */
  predicate IsLink(s: Segment) {
    s.Recursion? || s.RecursionData?
  }

  /** Every key a recursion segment refers to is also a dependency. */
  predicate Linked(e: Entry) {
    forall i :: 0 <= i < |e.segments| && IsLink(e.segments[i]) ==> e.segments[i].key in e.deps
  }

  /** A freshly constructed object: no key, no content, no dependencies. */
  function Empty(): (e: Entry)
    ensures e.segments == [] && e.deps == [] && e.key == None && e.depsHash == ""
    ensures Linked(e)
  {
    Entry(None, 0, [], [], "")
  }

  /** `new CacheData($data, $ck)`: the data is appended when truthy, the key set when given. */
  function NewEntry(data: PhpValue, ck: Option<Key>): (e: Entry)
    ensures e.key == ck && e.deps == []
    ensures e.segments == (if Truthy(data) then [Data(data)] else [])
  {
    var e := AppendData(Empty(), data);
    if ck.Some? then SetKey(e, ck.value) else e
  }

  function SetKey(e: Entry, k: Key): (r: Entry)
    ensures r.key == Some(k)
    ensures r.segments == e.segments && r.deps == e.deps && r.depsHash == e.depsHash
    ensures r.lifetime == e.lifetime
  {
    e.(key := Some(k))
  }

  function SetLifetime(e: Entry, lifetime: int): (r: Entry)
    ensures r.lifetime == lifetime
    ensures r.segments == e.segments && r.deps == e.deps && r.key == e.key && r.depsHash == e.depsHash
  {
    e.(lifetime := lifetime)
  }

  /** `appendData`: a 'data' segment is added exactly when the value is truthy;
      nothing else changes. */
  function AppendData(e: Entry, x: PhpValue): (r: Entry)
    ensures |r.segments| == |e.segments| + (if Truthy(x) then 1 else 0)
    ensures r.segments[..|e.segments|] == e.segments
    ensures Truthy(x) ==> r.segments[|e.segments|] == Data(x)
    ensures r.deps == e.deps && r.key == e.key && r.depsHash == e.depsHash && r.lifetime == e.lifetime
    ensures Linked(e) ==> Linked(r)
  {
    if Truthy(x) then e.(segments := e.segments + [Data(x)]) else e
  }

  /** What `appendData` evidently means for captured output: keep everything that
      was produced. Only the empty capture and `false` (no buffer) add nothing. */
  function AppendOutput(e: Entry, x: PhpValue): (r: Entry)
    ensures x.Str? && x.s != "" ==> r.segments == e.segments + [Data(x)]
    ensures x == Str("") || x == Bool(false) ==> r == e
    ensures r.deps == e.deps && r.key == e.key && r.depsHash == e.depsHash && r.lifetime == e.lifetime
  {
    if x == Str("") || x == Bool(false) || x == Null then e else e.(segments := e.segments + [Data(x)])
  }

  /** `appendCallback`: the callable is kept as a segment, to be called at render time. */
  function AppendCallback(e: Entry, cb: Callback): (r: Entry)
    ensures r.segments == e.segments + [Call(cb)]
    ensures r.deps == e.deps && r.key == e.key && r.depsHash == e.depsHash
    ensures Linked(e) ==> Linked(r)
  {
    e.(segments := e.segments + [Call(cb)])
  }

  /** `addDependency`: the key is appended even when already present, and the
      memoised hash is forgotten. */
  function AddDependency(e: Entry, k: Key): (r: Entry)
    ensures |r.deps| == |e.deps| + 1 && r.deps[..|e.deps|] == e.deps && r.deps[|e.deps|] == k
    ensures r.depsHash == ""
    ensures r.segments == e.segments && r.key == e.key && r.lifetime == e.lifetime
    ensures Linked(e) ==> Linked(r)
  {
    e.(deps := e.deps + [k], depsHash := "")
  }

  /** `addDependencies`: `addDependency` for each key in turn. */
  function AddDependencies(e: Entry, ks: seq<Key>): (r: Entry)
    ensures r.deps == e.deps + ks
    ensures r.depsHash == (if |ks| == 0 then e.depsHash else "")
    ensures r.segments == e.segments && r.key == e.key && r.lifetime == e.lifetime
    ensures Linked(e) ==> Linked(r)
    decreases |ks|
  {
    if |ks| == 0 then e
    else
      var r := AddDependencies(AddDependency(e, ks[0]), ks[1..]);
      assert e.deps + [ks[0]] + ks[1..] == e.deps + ks;
      r
  }

  /** The dependency list `setDependencies` leaves behind: exactly the given keys. */
  function ResetDependencies(e: Entry, ks: seq<Key>): (r: Entry)
    ensures r.deps == ks
    ensures |ks| > 0 ==> r.depsHash == ""
    ensures |ks| == 0 ==> r.depsHash == e.depsHash
    ensures r.segments == e.segments && r.key == e.key
  {
    AddDependencies(e.(deps := []), ks)
  }

  function ClearDependenciesHash(e: Entry): (r: Entry)
    ensures r.depsHash == "" && r.deps == e.deps && r.segments == e.segments && r.key == e.key
  {
    e.(depsHash := "")
  }

  /** `appendRecursion($k)`: a dependency on the key plus a 'recursion' segment. */
  function AppendRecursion(e: Entry, k: Key): (r: Entry)
    ensures r.segments == e.segments + [Recursion(k)]
    ensures r.deps == e.deps + [k] && r.depsHash == ""
    ensures Linked(e) ==> Linked(r)
  {
    var d := AddDependency(e, k);
    d.(segments := d.segments + [Recursion(k)])
  }

  /** `appendRecursionData($d)`: rejects an entry without a key; otherwise a dependency
      on that key plus a 'recursiondata' segment that holds only the key. */
  function AppendRecursionData(e: Entry, d: Entry): (r: Result<Entry>)
    ensures d.key.None? <==> r == Err(InvalidData)
    ensures d.key.Some? ==> (r.Ok?
      && r.value.segments == e.segments + [RecursionData(d.key.value)]
      && r.value.deps == e.deps + [d.key.value] && r.value.depsHash == ""
      && r.value.key == e.key && r.value.lifetime == e.lifetime)
    ensures r.Ok? && Linked(e) ==> Linked(r.value)
  {
    if d.key.None? then Err(InvalidData)
    else
      var a := AddDependency(e, d.key.value);
      Ok(a.(segments := a.segments + [RecursionData(d.key.value)]))
  }

  /** `checkClash($k)`: whether this entry's key equals `k`. An entry without a key
      clashes with nothing. */
  function CheckClash(e: Entry, k: Key): (b: bool)
    ensures b <==> e.key.Some? && e.key.value == k
  {
    e.key == Some(k)
  }

  /** The payload of the first 'data' segment, or null. */
  function FirstData(segs: seq<Segment>): (r: PhpValue)
    ensures (forall i :: 0 <= i < |segs| ==> !segs[i].Data?) ==> r == Null
    ensures forall i :: (0 <= i < |segs| && segs[i].Data? && (forall j :: 0 <= j < i ==> !segs[j].Data?))
                        ==> r == segs[i].payload
  {
    if |segs| == 0 then Null
    else if segs[0].Data? then segs[0].payload
    else
      var r := FirstData(segs[1..]);
      assert forall i :: 1 <= i < |segs| ==> segs[i] == segs[1..][i - 1];
      r
  }

  /** `getFirstData()`. */
  function GetFirstData(e: Entry): (r: PhpValue)
    ensures (forall i :: 0 <= i < |e.segments| ==> !e.segments[i].Data?) ==> r == Null
    ensures forall i :: (0 <= i < |e.segments| && e.segments[i].Data? && (forall j :: 0 <= j < i ==> !e.segments[j].Data?))
                        ==> r == e.segments[i].payload
  {
    FirstData(e.segments)
  }

  /** A value stored through the constructor reads back through `getFirstData`
      when it is truthy; a falsy one reads back as null. */
  lemma FirstDataOfNewEntry(data: PhpValue, ck: Option<Key>)
    ensures GetFirstData(NewEntry(data, ck)) == (if Truthy(data) then data else Null)
  {
  }

  /** The falsy values `''`, `'0'`, `0`, `false` and `null` add no segment. */
  lemma AppendDataSkipsFalsy(e: Entry)
    ensures AppendData(e, Str("")) == e && AppendData(e, Str("0")) == e
    ensures AppendData(e, Int(0)) == e && AppendData(e, Null) == e && AppendData(e, Bool(false)) == e
  {
  }

  /** `mergeDependencies($cd)` as written: `array_unique` compares its elements as
      strings, and a CacheKey object cannot be converted to a string, so merging two
      or more keys is a fatal error; a merge of at most one key goes through. */
  function MergeDependencies(e: Entry, other: Entry): (r: Result<Entry>)
    ensures |e.deps| + |other.deps| >= 2 <==> r == Err(Fatal(NotStringable))
    ensures r.Ok? ==> r.value.deps == e.deps + other.deps && r.value.segments == e.segments
  {
    var merged := e.deps + other.deps;
    if |merged| <= 1 then Ok(e.(deps := merged)) else Err(Fatal(NotStringable))
  }

  predicate NoDuplicates(s: seq<Key>) {
    forall i, j :: 0 <= i < j < |s| ==> s[i] != s[j]
  }

  /** The first occurrence of every element, in order. */
  function Dedup(s: seq<Key>): (r: seq<Key>)
    ensures NoDuplicates(r)
    ensures forall x :: x in r <==> x in s
    ensures |r| <= |s|
  {
    if |s| == 0 then []
    else
      var r := Dedup(s[..|s| - 1]);
      assert forall x :: x in s <==> x in s[..|s| - 1] || x == s[|s| - 1];
      if s[|s| - 1] in r then r else r + [s[|s| - 1]]
  }

  /** `mergeDependencies` as evidently intended: the union of both dependency lists
      without repetitions. */
  function MergeDependenciesFixed(e: Entry, other: Entry): (r: Entry)
    ensures NoDuplicates(r.deps)
    ensures forall k :: k in r.deps <==> k in e.deps || k in other.deps
    ensures r.segments == e.segments && r.key == e.key
  {
    e.(deps := Dedup(e.deps + other.deps))
  }

  /** The two agree wherever the code as written does not fail. */
  lemma MergeFixedAgrees(e: Entry, other: Entry)
    requires MergeDependencies(e, other).Ok?
    ensures MergeDependencies(e, other).value == MergeDependenciesFixed(e, other)
  {
    DedupShort(e.deps + other.deps);
  }

  /** A list of at most one key has no duplicates to drop. */
  lemma DedupShort(s: seq<Key>)
    requires |s| <= 1
    ensures Dedup(s) == s
  {
    if |s| == 1 {
      assert s[..0] == [];
    }
  }
}
