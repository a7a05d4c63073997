/** The process cache of the learning bundle: one slot for the last success, one for the last
    failure. */
module BundleCache {
  import opened Wrappers

  /** What loading a key gives: a snapshot, or the catalog being unavailable. */
  datatype Outcome<S> = Loaded(snapshot: S) | Unavailable

  datatype Slots<K, S> = Slots(success: Option<(K, S)>, failure: Option<K>)

  /** Both slots tell the truth about `load`. */
  ghost predicate Truthful<K(!new), S(!new)>(slots: Slots<K, S>, load: K -> Outcome<S>) {
    && (slots.success.Some? ==> load(slots.success.value.0) == Loaded(slots.success.value.1))
    && (slots.failure.Some? ==> load(slots.failure.value) == Unavailable)
  }

  predicate Knows<K(==), S>(slots: Slots<K, S>, key: K) {
    (slots.success.Some? && slots.success.value.0 == key) || slots.failure == Some(key)
  }

  class LearningBundleCache<K(==), S> {
    var cachedKey: Option<K>
    var cachedFailureKey: Option<K>
    var cachedSnapshot: Option<S>
    ghost var loads: seq<K>   // every key loaded so far

    constructor ()
      ensures Contents() == Slots(None, None) && loads == []
    {
      cachedKey, cachedFailureKey, cachedSnapshot := None, None, None;
      loads := [];
    }

    function Contents(): Slots<K, S>
      reads this
    {
      Slots(if cachedKey.Some? && cachedSnapshot.Some? then Some((cachedKey.value, cachedSnapshot.value)) else None,
            cachedFailureKey)
    }

    /** `load` is the uncached load of a release. */
    method GetLearningBundle(key: K, load: K -> Outcome<S>) returns (r: Outcome<S>)
      modifies this
      ensures (r, Contents()) == Served(old(Contents()), key, load)
      ensures loads == if Knows(old(Contents()), key) then old(loads) else old(loads) + [key]
    {
      if cachedKey == Some(key) && cachedSnapshot.Some? {
        return Loaded(cachedSnapshot.value);
      }
      if cachedFailureKey == Some(key) {
        return Unavailable;
      }
      r := load(key);
      loads := loads + [key];
      match r
      case Unavailable =>
        cachedFailureKey := Some(key);
      case Loaded(snapshot) =>
        cachedKey := Some(key);
        cachedFailureKey := None;
        cachedSnapshot := Some(snapshot);
    }

    method Reset()
      modifies this
      ensures Contents() == Slots(None, None) && loads == old(loads)
    {
      cachedKey, cachedFailureKey, cachedSnapshot := None, None, None;
    }
  }

  /** One call: the answer and the slots afterwards. */
  function Served<K(==), S>(slots: Slots<K, S>, key: K, load: K -> Outcome<S>): (Outcome<S>, Slots<K, S>) {
    if slots.success.Some? && slots.success.value.0 == key then (Loaded(slots.success.value.1), slots)
    else if slots.failure == Some(key) then (Unavailable, slots)
    else
      match load(key)
      case Unavailable => (Unavailable, slots.(failure := Some(key)))
      case Loaded(snapshot) => (Loaded(snapshot), Slots(Some((key, snapshot)), None))
  }

  datatype Request<K> = Get(key: K) | Reset

  function After<K(==), S>(slots: Slots<K, S>, requests: seq<Request<K>>, load: K -> Outcome<S>): Slots<K, S> {
    if requests == [] then slots
    else
      var before := After(slots, requests[..|requests| - 1], load);
      match requests[|requests| - 1]
      case Get(key) => Served(before, key, load).1
      case Reset => Slots(None, None)
  }

  lemma {:induction false} AfterTruthful<K(!new), S(!new)>(requests: seq<Request<K>>, load: K -> Outcome<S>)
    ensures Truthful(After(Slots(None, None), requests, load), load)
  {
    if requests != [] {
      AfterTruthful(requests[..|requests| - 1], load);
    }
  }

  /** After any history the cache answers exactly as an uncached load would, and asking again for
      the key just asked for loads nothing. */
  lemma CacheIsTransparent<K(!new), S(!new)>(history: seq<Request<K>>, key: K, load: K -> Outcome<S>)
    ensures var slots := After(Slots(None, None), history, load);
            && Served(slots, key, load).0 == load(key)
            && Knows(Served(slots, key, load).1, key)
  {
    AfterTruthful(history, load);
  }
}
