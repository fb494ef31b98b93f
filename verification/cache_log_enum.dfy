/** CacheLogEnum: the six access kinds logged by the stores, with HTML labels. */
module LogEnum {
  const ACCESSED: string := "accessed"
  const MISSED: string := "missed"
  const DELETED: string := "deleted"
  const CLEANED: string := "cleaned"
  const SAVED: string := "saved"
  const PREFETCHED: string := "prefetched"

  /** `getNames()`: each constant with its label, in declaration order. */
  function Names(): (ns: seq<(string, string)>)
    ensures |ns| == 6
  {
    [ (ACCESSED, "<span class=\"cache-success\">Accessed</span>"),
      (MISSED, "<span class=\"cache-miss\">Missed</span>"),
      (DELETED, "<span class=\"cache-deleted\">Deleted</span>"),
      (CLEANED, "<span class=\"cache-cleaned\">Cleaned</span>"),
      (SAVED, "<span class=\"cache-save\">Saved</span>"),
      (PREFETCHED, "<span class=\"cache-prefetched\">Prefetched</span>") ]
  }

  /** `getAll()`: the keys of `getNames()`, in order. */
  function GetAll(): (vs: seq<string>)
    ensures |vs| == |Names()| && forall i :: 0 <= i < |vs| ==> vs[i] == Names()[i].0
  {
    seq(|Names()|, i requires 0 <= i < |Names()| => Names()[i].0)
  }

  /** `valid($value)`: whether the value is a key of `getNames()`. */
  function Valid(v: string): (b: bool)
    ensures b <==> exists i :: 0 <= i < |Names()| && Names()[i].0 == v
  {
    LabelIndex(v, 0) < |Names()|
  }

  /** The position of `v` among the keys from `from` on, or the length when absent. */
  function LabelIndex(v: string, from: nat): (i: nat)
    requires from <= |Names()|
    ensures from <= i <= |Names()|
    ensures i < |Names()| ==> Names()[i].0 == v
    ensures forall j :: from <= j < i ==> Names()[j].0 != v
    decreases |Names()| - from
  {
    if from == |Names()| then from
    else if Names()[from].0 == v then from
    else LabelIndex(v, from + 1)
  }

  /** `getName($value)`: the label of a valid value; otherwise 'Invalid: ' and the
      value passed through `htmlspecialchars` (a parameter here). */
  function GetName(escape: string -> string, v: string): (s: string)
    ensures forall i :: 0 <= i < |Names()| && Names()[i].0 == v ==> s == Names()[i].1
    ensures !Valid(v) ==> s == "Invalid: " + escape(v)
  {
    var i := LabelIndex(v, 0);
    if i < |Names()| then Names()[i].1 else "Invalid: " + escape(v)
  }

  /** The six constants are distinct, so each has exactly one label. */
  lemma KeysDistinct()
    ensures forall i, j :: 0 <= i < j < |Names()| ==> Names()[i].0 != Names()[j].0
  {
  }

  /** Exactly the six constants are valid, and `getAll` lists them in declaration
      order. */
  lemma ValidIffListed(v: string)
    ensures Valid(v) <==> v in GetAll()
    ensures GetAll() == [ACCESSED, MISSED, DELETED, CLEANED, SAVED, PREFETCHED]
    ensures Valid(v) <==> v in {ACCESSED, MISSED, DELETED, CLEANED, SAVED, PREFETCHED}
  {
    assert GetAll() == [ACCESSED, MISSED, DELETED, CLEANED, SAVED, PREFETCHED];
  }

  /** A valid value's name is its label, and an unknown one is flagged. */
  lemma GetNameExamples(escape: string -> string)
    ensures GetName(escape, SAVED) == "<span class=\"cache-save\">Saved</span>"
    ensures GetName(escape, "bogus") == "Invalid: " + escape("bogus")
  {
    assert Names()[4].0 == SAVED;
    assert !Valid("bogus") by {
      forall i | 0 <= i < |Names()| ensures Names()[i].0 != "bogus" {
      }
    }
  }
}
