/**
  The functions the library calls but whose internals are not modelled: md5,
  serialize, is_callable and call_user_func. They are fields of `Env`, so nothing is
  assumed about them beyond what a lemma states as a hypothesis.
 */
module Oracles {
  import opened Php
  import opened Entries

  datatype Env = Env(
    md5: string -> string,
    /** `serialize()` of a plain PHP value, used to name a non-string `sub`. */
    serialize: PhpValue -> string,
    /** The text `CacheData::serialize()` produces for an entry. */
    serializeEntry: Entry -> string,
    /** `is_callable()` on a stored callback, at render time. */
    isCallable: Callback -> bool,
    /** What calling a stored callback returns, at render time. */
    call: Callback -> PhpValue,
    /** How deeply nested entries may be rendered before the interpreter gives up;
        stands in for PHP's finite call stack. */
    depthLimit: nat)

  /** Hypothesis: md5 never maps two texts to one digest. */
  ghost predicate Md5Injective(env: Env) {
    forall a, b :: env.md5(a) == env.md5(b) ==> a == b
  }

  /** Hypothesis: distinct entries serialize to distinct texts. */
  ghost predicate SerializeEntryInjective(env: Env) {
    forall a, b :: env.serializeEntry(a) == env.serializeEntry(b) ==> a == b
  }

  /** Hypothesis: md5 answers with 32 hexadecimal digits, so never with ''. */
  ghost predicate Md5Digests(env: Env) {
    forall t :: |env.md5(t)| == 32
  }
}
