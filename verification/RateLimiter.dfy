/** The login rate limiter: a sliding window per key with lazy pruning, a periodic sweep and
    least-recently-used eviction, shown to decide exactly as a plain history would. */
module RateLimiter {
  type Time = real

  // ---- Plain histories ----

  /** How many of the times lie in (lo, hi]. */
  function CountIn(s: seq<Time>, lo: Time, hi: Time): nat {
    if s == [] then 0 else (if lo < s[0] <= hi then 1 else 0) + CountIn(s[1..], lo, hi)
  }

  predicate Sorted(s: seq<Time>) {
    forall i, j :: 0 <= i < j < |s| ==> s[i] <= s[j]
  }

  predicate UpTo(s: seq<Time>, now: Time) {
    forall i :: 0 <= i < |s| ==> s[i] <= now
  }

  type History<K> = map<K, seq<Time>>

  function Of<K>(h: History<K>, key: K): seq<Time> {
    if key in h then h[key] else []
  }

  datatype Op<K> =
    | Check(key: K, now: Time, consume: bool, evicted: set<K>)
    | Reset(key: K)

  /** The decision of a plain history: fewer than `limit` accepted checks in the window. */
  predicate Allows<K>(h: History<K>, key: K, now: Time, limit: nat, window: nat) {
    CountIn(Of(h, key), now - window as real, now) < limit
  }

  /** Eviction and reset forget a key's history; only an accepted consuming check adds to one. */
  function PlainStep<K>(h: History<K>, op: Op<K>, limit: nat, window: nat): History<K> {
    match op
    case Reset(key) => h - {key}
    case Check(key, now, consume, evicted) =>
      if consume && Allows(h, key, now, limit, window) then (h - evicted)[key := Of(h, key) + [now]] else h
  }

  // ---- Pruning ----

  /** Drop times from the front while they are at or below the cutoff. */
  function Pruned(s: seq<Time>, cutoff: Time): seq<Time> {
    if s != [] && s[0] <= cutoff then Pruned(s[1..], cutoff) else s
  }

  lemma {:induction false} PrunedIsSuffix(s: seq<Time>, cutoff: Time)
    ensures var n := |s| - |Pruned(s, cutoff)|;
            && 0 <= n && Pruned(s, cutoff) == s[n..]
            && (forall i :: 0 <= i < n ==> s[i] <= cutoff)
            && (n < |s| ==> s[n] > cutoff)
  {
    if s != [] && s[0] <= cutoff {
      PrunedIsSuffix(s[1..], cutoff);
    }
  }

  lemma {:induction false} PrunedTwice(s: seq<Time>, c: Time, d: Time)
    requires c <= d
    ensures Pruned(Pruned(s, c), d) == Pruned(s, d)
  {
    if s != [] && s[0] <= c {
      PrunedTwice(s[1..], c, d);
    }
  }

  /** On a sorted history what pruning keeps is exactly the window. */
  lemma {:induction false} PrunedCounts(s: seq<Time>, cutoff: Time, now: Time)
    requires Sorted(s) && UpTo(s, now)
    ensures |Pruned(s, cutoff)| == CountIn(s, cutoff, now)
  {
    if s != [] {
      PrunedCounts(s[1..], cutoff, now);
      if s[0] > cutoff {
        assert Pruned(s[1..], cutoff) == s[1..] by {
          if |s| > 1 { assert s[1..][0] == s[1] >= s[0]; }
        }
      }
    }
  }

  lemma {:induction false} PrunedAppend(s: seq<Time>, cutoff: Time, now: Time)
    requires now > cutoff
    ensures Pruned(s + [now], cutoff) == Pruned(s, cutoff) + [now]
  {
    if s != [] && s[0] <= cutoff {
      assert (s + [now])[1..] == s[1..] + [now];
      PrunedAppend(s[1..], cutoff, now);
    }
  }

  // ---- The window bound ----

  /** Any two accepted checks `limit` apart in the history are a window apart in time. */
  predicate Spaced(s: seq<Time>, limit: nat, window: nat) {
    forall i :: 0 <= i && i + limit < |s| ==> s[i] + window as real <= s[i + limit]
  }

  lemma {:induction false} CountBefore(s: seq<Time>, lo: Time, hi: Time, k: nat)
    requires forall i :: k <= i < |s| ==> s[i] > hi
    ensures CountIn(s, lo, hi) <= k
  {
    if s != [] {
      CountBefore(s[1..], lo, hi, if k == 0 then 0 else k - 1);
    }
  }

  lemma {:induction false} SpacedBound(s: seq<Time>, limit: nat, window: nat, t: Time)
    requires Sorted(s) && Spaced(s, limit, window)
    ensures CountIn(s, t - window as real, t) <= limit
  {
    if s != [] {
      if s[0] > t - window as real {
        forall i | limit <= i < |s| ensures s[i] > t {
          assert s[0] + window as real <= s[0 + limit];
          assert s[limit] <= s[i];
        }
        CountBefore(s, t - window as real, t, limit);
      } else {
        forall i | 0 <= i && i + limit < |s[1..]| ensures s[1..][i] + window as real <= s[1..][i + limit] {
          assert s[i + 1] + window as real <= s[(i + 1) + limit];
        }
        SpacedBound(s[1..], limit, window, t);
      }
    }
  }

  lemma AcceptedSpaced(s: seq<Time>, now: Time, limit: nat, window: nat)
    requires Sorted(s) && UpTo(s, now) && Spaced(s, limit, window)
    requires CountIn(s, now - window as real, now) < limit
    ensures Spaced(s + [now], limit, window) && Sorted(s + [now]) && UpTo(s + [now], now)
  {
    var cutoff := now - window as real;
    PrunedCounts(s, cutoff, now);
    PrunedIsSuffix(s, cutoff);
    var t, n := s + [now], |s| - |Pruned(s, cutoff)|;
    forall i | 0 <= i && i + limit < |t| ensures t[i] + window as real <= t[i + limit] {
      if i + limit < |s| {
        assert s[i] + window as real <= s[i + limit];
      } else {
        assert i < n && s[i] <= cutoff;
      }
    }
  }

  ghost predicate SoundHistory<K(!new)>(h: History<K>, now: Time, limit: nat, window: nat) {
    forall k :: k in h ==> Sorted(h[k]) && UpTo(h[k], now) && Spaced(h[k], limit, window)
  }

  function TimeAfter<K>(op: Op<K>, clock: Time): Time {
    if op.Check? then op.now else clock
  }

  lemma StepSound<K(!new)>(h: History<K>, op: Op<K>, clock: Time, limit: nat, window: nat)
    requires SoundHistory(h, clock, limit, window) && clock <= TimeAfter(op, clock)
    ensures SoundHistory(PlainStep(h, op, limit, window), TimeAfter(op, clock), limit, window)
  {
    if op.Check? && op.consume && Allows(h, op.key, op.now, limit, window) {
      assert Spaced(Of(h, op.key), limit, window) && UpTo(Of(h, op.key), op.now);
      AcceptedSpaced(Of(h, op.key), op.now, limit, window);
    }
  }

  ghost predicate Run<K>(hs: seq<History<K>>, ops: seq<Op<K>>, clocks: seq<Time>, limit: nat, window: nat) {
    && |hs| == |clocks| == |ops| + 1 && hs[0] == map[]
    && forall i :: 0 <= i < |ops| ==>
         && hs[i + 1] == PlainStep(hs[i], ops[i], limit, window)
         && clocks[i] <= clocks[i + 1] == TimeAfter(ops[i], clocks[i])
  }

  /** Over every run, in every window of time, a key has at most `limit` accepted consuming
      checks since it was last reset or evicted. */
  lemma {:induction false} WindowBound<K(!new)>(
    hs: seq<History<K>>, ops: seq<Op<K>>, clocks: seq<Time>, limit: nat, window: nat, i: nat, key: K, t: Time)
    requires Run(hs, ops, clocks, limit, window) && i < |hs|
    ensures SoundHistory(hs[i], clocks[i], limit, window)
    ensures CountIn(Of(hs[i], key), t - window as real, t) <= limit
  {
    if i > 0 {
      WindowBound(hs, ops, clocks, limit, window, i - 1, key, t);
      var j := i - 1;
      assert hs[j + 1] == PlainStep(hs[j], ops[j], limit, window) && clocks[j] <= clocks[j + 1];
      StepSound(hs[j], ops[j], clocks[j], limit, window);
    }
    SpacedBound(Of(hs[i], key), limit, window, t);
  }

  // ---- The limiter ----

  datatype Decision = Accepted | Rejected(retryAfter: int)

  /** Seconds until the oldest attempt of the window leaves it, truncated, at least one. */
  function RetryAfter(live: seq<Time>, now: Time, window: nat): int
    requires live != []
  {
    var remaining := (window as real - (now - live[0])).Floor;
    if remaining < 1 then 1 else remaining
  }

  /** After waiting that long the oldest attempt has left the window or leaves it within a second; and
      unless that is a single second it has not left it before. */
  lemma RetryAfterMeans(live: seq<Time>, now: Time, window: nat)
    requires live != [] && now - window as real < live[0] <= now
    ensures var wait := RetryAfter(live, now, window);
            && wait >= 1
            && live[0] < now + wait as real - window as real + 1.0
            && (wait > 1 ==> live[0] >= now + wait as real - window as real)
  {
  }

  function Without<K(==)>(order: seq<K>, key: K): (r: seq<K>)
    ensures forall x :: x in r ==> x in order && x != key
    ensures forall x :: x in order && x != key ==> x in r
  {
    if order == [] then []
    else
      assert order == [order[0]] + order[1..];
      if order[0] == key then Without(order[1..], key) else [order[0]] + Without(order[1..], key)
  }

  predicate NoRepeat<K(==)>(s: seq<K>) {
    forall i, j :: 0 <= i < j < |s| ==> s[i] != s[j]
  }

  lemma {:induction false} WithoutNoRepeat<K>(order: seq<K>, key: K)
    requires NoRepeat(order)
    ensures NoRepeat(Without(order, key))
    ensures |Without(order, key)| == if key in order then |order| - 1 else |order|
  {
    if order != [] {
      WithoutNoRepeat(order[1..], key);
      assert order == [order[0]] + order[1..];
      if order[0] == key {
        assert key !in order[1..] by {
          forall i | 0 <= i < |order[1..]| ensures order[1..][i] != key { assert order[i + 1] != order[0]; }
        }
      } else {
        forall i | 0 <= i < |Without(order[1..], key)| ensures Without(order[1..], key)[i] != order[0] {
          assert Without(order[1..], key)[i] in order[1..];
          var j :| 0 <= j < |order[1..]| && order[1..][j] == Without(order[1..], key)[i];
          assert order[j + 1] != order[0];
        }
      }
    }
  }

  /** The order goes from the key used longest ago to the one used last. */
  ghost predicate ByRecency<K(!new)>(order: seq<K>, touched: map<K, nat>, turns: nat) {
    && (forall k :: k in order ==> k in touched && touched[k] < turns)
    && forall i, j :: 0 <= i < j < |order| ==> touched[order[i]] < touched[order[j]]
  }

  lemma LaterByRecency<K(!new)>(order: seq<K>, touched: map<K, nat>, turns: nat)
    requires ByRecency(order, touched, turns) && order != []
    ensures ByRecency(order[1..], touched, turns)
    ensures forall k :: k in order[1..] ==> k in touched && order[0] in touched && touched[order[0]] < touched[k]
  {
    forall k | k in order[1..] ensures k in order && touched[order[0]] < touched[k] {
      var j :| 0 <= j < |order| - 1 && order[1..][j] == k;
      assert order[j + 1] == k;
    }
  }

  lemma {:induction false} WithoutKeepsRecency<K(!new)>(order: seq<K>, key: K, touched: map<K, nat>, turns: nat)
    requires ByRecency(order, touched, turns)
    ensures ByRecency(Without(order, key), touched, turns)
  {
    if order != [] {
      var first, later, rest := order[0], order[1..], Without(order[1..], key);
      LaterByRecency(order, touched, turns);
      WithoutKeepsRecency(later, key, touched, turns);
      forall k | k in rest ensures touched[first] < touched[k] {
        assert k in later;
      }
    }
  }

  /** `order` lists exactly `keys`, by recency. */
  ghost predicate OrderSound<K(!new)>(order: seq<K>, keys: set<K>, touched: map<K, nat>, turns: nat) {
    NoRepeat(order) && ByRecency(order, touched, turns) && forall k :: k in order <==> k in keys
  }

  lemma KeyDropped<K(!new)>(order: seq<K>, keys: set<K>, touched: map<K, nat>, turns: nat, key: K)
    requires OrderSound(order, keys, touched, turns) && key in keys
    ensures OrderSound(Without(order, key), keys - {key}, touched, turns)
    ensures |Without(order, key)| == |order| - 1
  {
    WithoutNoRepeat(order, key);
    WithoutKeepsRecency(order, key, touched, turns);
  }

  lemma OldestDropped<K(!new)>(order: seq<K>, keys: set<K>, touched: map<K, nat>, turns: nat)
    requires OrderSound(order, keys, touched, turns) && order != []
    ensures OrderSound(order[1..], keys - {order[0]}, touched, turns)
    ensures forall k :: k in order[1..] ==> k in touched && order[0] in touched && touched[order[0]] < touched[k]
  {
    assert order == [order[0]] + order[1..];
    forall k | k in order[1..] ensures touched[order[0]] < touched[k] && k != order[0] {
      var i :| 0 <= i < |order[1..]| && order[1..][i] == k;
      assert order[i + 1] == k;
    }
  }

  /** Every one of `evicted` was last used before every one of `kept`. */
  ghost predicate UsedBefore<K(!new)>(evicted: set<K>, kept: set<K>, touched: map<K, nat>) {
    forall e, k :: e in evicted && k in kept ==> e in touched && k in touched && touched[e] < touched[k]
  }

  lemma KeyUsed<K(!new)>(order: seq<K>, keys: set<K>, touched: map<K, nat>, turns: nat, key: K)
    requires OrderSound(order, keys, touched, turns) && key !in keys
    ensures OrderSound(order + [key], keys + {key}, touched[key := turns], turns + 1)
  {
    var now, later := touched[key := turns], order + [key];
    forall i, j | 0 <= i < j < |later| ensures now[later[i]] < now[later[j]] && later[i] != later[j] {
      assert later[i] in order && (j < |order| ==> later[j] in order);
    }
  }

  /** A deque and the history agree on the window; an untracked key has an empty one. */
  ghost predicate Agree<K>(attempts: History<K>, history: History<K>, k: K, cutoff: Time) {
    Pruned(Of(attempts, k), cutoff) == Pruned(Of(history, k), cutoff)
  }

  ghost predicate AllAgree<K(!new)>(attempts: History<K>, history: History<K>, cutoff: Time) {
    forall k {:trigger Agree(attempts, history, k, cutoff)} :: Agree(attempts, history, k, cutoff)
  }

  /** Pruning, whether by the sweep or by a check, never changes what the window holds. */
  lemma PruningKeepsAgreement<K(!new)>(
    before: History<K>, after: History<K>, history: History<K>, c: Time, d: Time)
    requires c <= d && AllAgree(before, history, c)
    requires AllPruned(after, before, d)
    ensures AllAgree(after, history, d)
  {
    forall k ensures Agree(after, history, k, d) {
      assert PrunedFrom(after, before, k, d) && Agree(before, history, k, c);
      PrunedTwice(Of(before, k), c, d);
      PrunedTwice(Of(history, k), c, d);
      PrunedTwice(Of(before, k), d, d);
    }
  }

  class LoginRateLimiter<K(==, !new)> {
    const limit: nat
    const window: nat
    const maxKeys: nat
    var attempts: map<K, seq<Time>>
    var order: seq<K>        // the keys of `attempts`, least recently used first
    var lastSweep: Time
    ghost var touched: map<K, nat>  // for every key, the turn it last had
    ghost var turns: nat
    ghost var history: History<K>   // accepted consuming checks since reset or eviction
    ghost var clock: Time           // the time of the last check

    constructor (limit: nat, window: nat, maxKeys: nat)
      requires limit >= 1 && window >= 1 && maxKeys >= 1
      ensures Valid() && history == map[] && attempts == map[]
      ensures this.limit == limit && this.window == window && this.maxKeys == maxKeys
      ensures clock == 0.0
    {
      this.limit, this.window, this.maxKeys := limit, window, maxKeys;
      attempts, order, lastSweep := map[], [], 0.0;
      history, clock, touched, turns := map[], 0.0, map[], 0;
    }

    ghost predicate OrderValid()
      reads this
    {
      OrderSound(order, attempts.Keys, touched, turns)
    }

    ghost predicate Valid()
      reads this
    {
      && limit >= 1 && window >= 1 && maxKeys >= 1
      && OrderValid() && |order| <= maxKeys
      && AllAgree(attempts, history, clock - window as real)
      && AllUpTo(history, clock)
    }

    method PruneKey(key: K, cutoff: Time)
      requires key in attempts
      modifies this`attempts
      ensures attempts == old(attempts)[key := Pruned(old(attempts)[key], cutoff)]
    {
      while attempts[key] != [] && attempts[key][0] <= cutoff
        invariant key in attempts && attempts == old(attempts)[key := attempts[key]]
        invariant Pruned(attempts[key], cutoff) == Pruned(old(attempts)[key], cutoff)
        decreases |attempts[key]|
      {
        attempts := attempts[key := attempts[key][1..]];
      }
    }

    method Forget(key: K)
      requires OrderValid() && key in attempts
      modifies this`attempts, this`order
      ensures OrderValid() && |order| == |old(order)| - 1
      ensures attempts == old(attempts) - {key}
    {
      KeyDropped(order, attempts.Keys, touched, turns, key);
      attempts := attempts - {key};
      order := Without(order, key);
    }

    /** Prunes one deque and forgets it if that leaves it empty. */
    method SweepKey(key: K, cutoff: Time)
      requires OrderValid() && key in attempts
      modifies this`attempts, this`order
      ensures OrderValid() && |order| <= |old(order)|
      ensures attempts == (if Pruned(old(attempts)[key], cutoff) == [] then old(attempts) - {key}
                           else old(attempts)[key := Pruned(old(attempts)[key], cutoff)])
    {
      PruneKey(key, cutoff);
      if attempts[key] == [] {
        Forget(key);
      }
    }

    /** The periodic sweep prunes every deque and forgets the empty ones. */
    method Sweep(now: Time)
      requires OrderValid()
      modifies this`attempts, this`order, this`lastSweep
      ensures OrderValid() && |order| <= |old(order)|
      ensures AllPruned(attempts, old(attempts), now - window as real)
    {
      if now - lastSweep < (if window < 60 then window as real else 60.0) {
        return;
      }
      var cutoff := now - window as real;
      var keys := order;
      var i := 0;
      while i < |keys|
        invariant 0 <= i <= |keys| && keys == old(order)
        invariant OrderValid() && |order| <= |old(order)|
        invariant forall j :: i <= j < |keys| ==> keys[j] in attempts && attempts[keys[j]] == old(attempts)[keys[j]]
        invariant AllPruned(attempts, old(attempts), cutoff)
      {
        ghost var before := attempts;
        SweepKey(keys[i], cutoff);
        forall k ensures PrunedFrom(attempts, old(attempts), k, cutoff) {
          assert PrunedFrom(before, old(attempts), k, cutoff);
        }
        i := i + 1;
      }
      lastSweep := now;
    }

    /** Moves a key to the most recently used end. */
    method Touch(key: K)
      requires OrderValid() && key in attempts
      modifies this`order, this`touched, this`turns
      ensures OrderValid() && |order| == |old(order)|
      ensures touched == old(touched)[key := old(turns)] && turns == old(turns) + 1
    {
      KeyDropped(order, attempts.Keys, touched, turns, key);
      KeyUsed(Without(order, key), attempts.Keys - {key}, touched, turns, key);
      assert attempts.Keys - {key} + {key} == attempts.Keys;
      order := Without(order, key) + [key];
      touched, turns := touched[key := turns], turns + 1;
    }

    /** Forgets the key used longest ago. */
    method PopOldest() returns (oldest: K)
      requires OrderValid() && order != []
      modifies this`attempts, this`order
      ensures OrderValid() && |order| == |old(order)| - 1
      ensures oldest in old(attempts) && attempts == old(attempts) - {oldest}
      ensures UsedBefore({oldest}, attempts.Keys, touched)
    {
      oldest := order[0];
      OldestDropped(order, attempts.Keys, touched, turns);
      assert oldest in order;
      attempts := attempts - {oldest};
      order := order[1..];
    }

    /** Makes room for one more key by dropping the least recently used ones. */
    method EvictForNew() returns (ghost evicted: set<K>)
      requires OrderValid() && |order| <= maxKeys && maxKeys >= 1
      modifies this`attempts, this`order
      ensures OrderValid() && |order| < maxKeys
      ensures attempts == old(attempts) - evicted
      ensures |evicted| <= 1 && evicted <= old(attempts).Keys
      ensures evicted != {} ==> |old(order)| == maxKeys
      ensures UsedBefore(evicted, attempts.Keys, touched)
    {
      evicted := {};
      while |order| >= maxKeys
        invariant OrderValid() && |order| <= maxKeys
        invariant attempts == old(attempts) - evicted
        invariant |evicted| <= 1 && evicted <= old(attempts).Keys
        invariant evicted == {} || (|order| < maxKeys && |old(order)| == maxKeys)
        invariant |order| == maxKeys ==> |old(order)| == maxKeys
        invariant UsedBefore(evicted, attempts.Keys, touched)
        decreases |order|
      {
        var oldest := PopOldest();
        evicted := {oldest};
      }
    }

    /** One check, under the lock. */
    method Check(key: K, now: Time, consume: bool) returns (decision: Decision, ghost evicted: set<K>)
      requires Valid() && clock <= now
      modifies this
      ensures Valid() && clock == now
      // The decision and the new history are those of the plain history.
      ensures decision.Accepted? <==> Allows(old(history), key, now, limit, window)
      ensures history == PlainStep(old(history), Op.Check(key, now, consume, evicted), limit, window)
      // A key is only forgotten to make room for one that is not tracked.
      ensures key !in evicted && |evicted| <= 1
      ensures evicted != {} ==>
                && consume && |old(order)| == maxKeys
                && (key !in old(attempts) || Pruned(old(attempts)[key], now - window as real) == [])
      // The key forgotten is the one used longest ago, and this check uses its own key.
      ensures UsedBefore(evicted, attempts.Keys - {key}, old(touched))
      ensures touched == if key in attempts then old(touched)[key := old(turns)] else old(touched)
      ensures decision.Rejected? ==> Rejects(decision, Of(old(history), key), now, window)
    {
      ghost var cutoff := now - window as real;
      Sweep(now);
      PruningKeepsAgreement(old(attempts), attempts, history, old(clock) - window as real, cutoff);
      clock := now;
      assert PrunedFrom(attempts, old(attempts), key, cutoff);
      PrunedTwice(Of(old(attempts), key), cutoff, cutoff);
      decision, evicted := Decide(key, now, consume);
    }

    /** The check itself, once the sweep is done. */
    method Decide(key: K, now: Time, consume: bool) returns (decision: Decision, ghost evicted: set<K>)
      requires Valid() && clock == now
      modifies this
      ensures Valid() && clock == now
      // The decision and the new history are those of the plain history.
      ensures decision.Accepted? <==> Allows(old(history), key, now, limit, window)
      ensures history == PlainStep(old(history), Op.Check(key, now, consume, evicted), limit, window)
      // A key is only forgotten to make room for one that is not tracked.
      ensures key !in evicted && |evicted| <= 1
      ensures evicted != {} ==> consume && key !in old(attempts) && |old(order)| == maxKeys
      // The key forgotten is the one used longest ago, and this check uses its own key.
      ensures UsedBefore(evicted, attempts.Keys - {key}, old(touched))
      ensures touched == if key in attempts then old(touched)[key := old(turns)] else old(touched)
      ensures decision.Rejected? ==> Rejects(decision, Of(old(history), key), now, window)
    {
      evicted := {};
      if key !in attempts {
        WindowCount(attempts, history, key, now, window);
        if !consume {
          return Accepted, evicted;
        }
        decision, evicted := DecideUntracked(key, now);
      } else {
        decision := DecideTracked(key, now, consume);
      }
    }

    /** The consuming check of an untracked key: room is made for it, and its window is empty. */
    method DecideUntracked(key: K, now: Time) returns (decision: Decision, ghost evicted: set<K>)
      requires Valid() && clock == now && key !in attempts && Allows(history, key, now, limit, window)
      modifies this
      ensures Valid() && clock == now && key in attempts
      ensures decision.Accepted?
      ensures history == PlainStep(old(history), Op.Check(key, now, true, evicted), limit, window)
      ensures key !in evicted && |evicted| <= 1
      ensures evicted != {} ==> |old(order)| == maxKeys
      ensures UsedBefore(evicted, attempts.Keys - {key}, old(touched))
      ensures touched == old(touched)[key := old(turns)]
    {
      evicted := Track(key);
      EvictedFirst(old(history), key, now, evicted, limit, window);
      decision := Admit(key, now, true);
    }

    /** The check of a tracked key, which it makes the last used. */
    method DecideTracked(key: K, now: Time, consume: bool) returns (decision: Decision)
      requires Valid() && clock == now && key in attempts
      modifies this
      ensures Valid() && clock == now && attempts.Keys == old(attempts).Keys
      ensures decision.Accepted? <==> Allows(old(history), key, now, limit, window)
      ensures history == PlainStep(old(history), Op.Check(key, now, consume, {}), limit, window)
      ensures touched == old(touched)[key := old(turns)]
      ensures decision.Rejected? ==> Rejects(decision, Of(old(history), key), now, window)
    {
      Touch(key);
      decision := Admit(key, now, consume);
    }

    /** Starts an empty deque for a key, evicting if the limiter is full. */
    method Track(key: K) returns (ghost evicted: set<K>)
      requires Valid() && key !in attempts
      modifies this
      ensures Valid() && clock == old(clock) && key in attempts
      ensures history == old(history) - evicted
      ensures key !in evicted && |evicted| <= 1
      ensures evicted != {} ==> |old(order)| == maxKeys
      ensures UsedBefore(evicted, attempts.Keys - {key}, old(touched))
      ensures touched == old(touched)[key := old(turns)] && turns == old(turns) + 1
    {
      evicted := EvictForNew();
      KeyUsed(order, attempts.Keys, touched, turns, key);
      attempts := attempts[key := []];
      order := order + [key];
      touched, turns := touched[key := turns], turns + 1;
      history := history - evicted;
      TrackKeepsAgreement(old(attempts), old(history), key, evicted, clock, clock - window as real);
    }

    /** Prunes the deque of a tracked key, then counts it against the limit. */
    method Admit(key: K, now: Time, consume: bool) returns (decision: Decision)
      requires limit >= 1 && window >= 1 && key in attempts
      requires AllAgree(attempts, history, now - window as real) && AllUpTo(history, now)
      modifies this`attempts, this`history
      ensures AllAgree(attempts, history, now - window as real) && AllUpTo(history, now)
      ensures attempts.Keys == old(attempts).Keys
      ensures decision.Accepted? <==> Allows(old(history), key, now, limit, window)
      ensures history == PlainStep(old(history), Op.Check(key, now, consume, {}), limit, window)
      ensures decision.Rejected? ==> Rejects(decision, Of(old(history), key), now, window)
    {
      DequePruned(attempts, history, key, now, window);
      PruneKey(key, now - window as real);
      if |attempts[key]| >= limit {
        return Rejected(RetryAfter(attempts[key], now, window));
      }
      if consume {
        Record(key, now);
        assert old(history) - {} == old(history);
      }
      decision := Accepted;
    }

    /** Notes an accepted attempt in a deque that is already pruned. */
    method Record(key: K, now: Time)
      requires window >= 1 && key in attempts && attempts[key] == Pruned(attempts[key], now - window as real)
      requires AllAgree(attempts, history, now - window as real) && AllUpTo(history, now)
      modifies this`attempts, this`history
      ensures AllAgree(attempts, history, now - window as real) && AllUpTo(history, now)
      ensures attempts.Keys == old(attempts).Keys
      ensures history == old(history)[key := Of(old(history), key) + [now]]
    {
      AcceptKeepsAgreement(attempts, history, key, now, window);
      attempts := attempts[key := attempts[key] + [now]];
      history := history[key := Of(history, key) + [now]];
    }

    method Reset(key: K)
      requires Valid()
      modifies this
      ensures Valid() && clock == old(clock)
      ensures history == PlainStep(old(history), Op.Reset(key), limit, window)
      ensures attempts == old(attempts) - {key}
    {
      if key in attempts {
        Forget(key);
      }
      assert attempts == old(attempts) - {key};
      ResetKeepsAgreement(old(attempts), history, key, clock, clock - window as real);
      history := history - {key};
    }

    /** At most `maxKeys` keys are tracked at any time. */
    method TrackedKeys() returns (n: nat)
      requires Valid()
      ensures n == |attempts.Keys| <= maxKeys
    {
      OrderCounts(order, attempts.Keys);
      n := |attempts|;
    }
  }

  lemma {:induction false} OrderCounts<K>(order: seq<K>, keys: set<K>)
    requires NoRepeat(order) && forall k :: k in order <==> k in keys
    ensures |order| == |keys|
  {
    if order != [] {
      var last := order[|order| - 1];
      assert order == order[..|order| - 1] + [last];
      OrderCounts(order[..|order| - 1], keys - {last});
    }
  }

  ghost predicate AllPruned<K(!new)>(after: History<K>, before: History<K>, cutoff: Time) {
    forall k {:trigger PrunedFrom(after, before, k, cutoff)} :: PrunedFrom(after, before, k, cutoff)
  }

  ghost predicate AllUpTo<K(!new)>(h: History<K>, now: Time) {
    forall k :: k in h ==> Sorted(h[k]) && UpTo(h[k], now)
  }

  /** Accepting a consuming check keeps deques and histories in agreement. */
  lemma AcceptKeepsAgreement<K(!new)>(a: History<K>, h: History<K>, key: K, now: Time, window: nat)
    requires window >= 1 && key in a && AllUpTo(h, now) && AllAgree(a, h, now - window as real)
    ensures var cutoff := now - window as real;
            && AllAgree(a[key := Pruned(a[key], cutoff) + [now]], h[key := Of(h, key) + [now]], cutoff)
            && AllUpTo(h[key := Of(h, key) + [now]], now)
            && a[key := Pruned(a[key], cutoff) + [now]].Keys == a.Keys
  {
    var cutoff := now - window as real;
    assert Agree(a, h, key, cutoff);
    Lookup(a[key], Of(h, key), now, window);
    assert Sorted(Of(h, key) + [now]) && UpTo(Of(h, key) + [now], now);
    AgreementUpdated(a, h, a[key := Pruned(a[key], cutoff) + [now]], h[key := Of(h, key) + [now]], {}, key, cutoff);
  }

  /** So does pruning the deque of one key. */
  lemma PruneKeepsAgreement<K(!new)>(a: History<K>, h: History<K>, key: K, cutoff: Time)
    requires key in a && AllAgree(a, h, cutoff)
    ensures AllAgree(a[key := Pruned(a[key], cutoff)], h, cutoff)
  {
    assert Agree(a, h, key, cutoff);
    PrunedTwice(a[key], cutoff, cutoff);
    AgreementUpdated(a, h, a[key := Pruned(a[key], cutoff)], h, {}, key, cutoff);
  }

  /** So does forgetting some keys in both, and starting an empty deque for an untracked one. */
  lemma TrackKeepsAgreement<K(!new)>(
    a: History<K>, h: History<K>, key: K, evicted: set<K>, now: Time, cutoff: Time)
    requires key !in a && key !in evicted && AllAgree(a, h, cutoff) && AllUpTo(h, now)
    ensures AllAgree((a - evicted)[key := []], h - evicted, cutoff) && AllUpTo(h - evicted, now)
  {
    assert Agree(a, h, key, cutoff);
    AgreementUpdated(a, h, (a - evicted)[key := []], h - evicted, evicted, key, cutoff);
  }

  /** So does forgetting a key in both. */
  lemma ResetKeepsAgreement<K(!new)>(a: History<K>, h: History<K>, key: K, now: Time, cutoff: Time)
    requires AllAgree(a, h, cutoff) && AllUpTo(h, now)
    ensures AllAgree(a - {key}, h - {key}, cutoff) && AllUpTo(h - {key}, now)
  {
    AgreementUpdated(a, h, a - {key}, h - {key}, {}, key, cutoff);
  }

  /** Forgetting the evicted keys first makes no difference to a check of another key. */
  lemma EvictedFirst<K(!new)>(h: History<K>, key: K, now: Time, evicted: set<K>, limit: nat, window: nat)
    requires key !in evicted && Allows(h, key, now, limit, window)
    ensures Allows(h - evicted, key, now, limit, window)
    ensures Of(h - evicted, key) == Of(h, key)
    ensures PlainStep(h - evicted, Op.Check(key, now, true, {}), limit, window)
         == PlainStep(h, Op.Check(key, now, true, evicted), limit, window)
  {
    assert (h - evicted) - {} == h - evicted;
  }

  /** What pruning the deque of a tracked key leaves to decide with. */
  lemma DequePruned<K(!new)>(a: History<K>, h: History<K>, key: K, now: Time, window: nat)
    requires window >= 1 && key in a && AllUpTo(h, now) && AllAgree(a, h, now - window as real)
    ensures var cutoff := now - window as real;
            var live := Pruned(a[key], cutoff);
            && AllAgree(a[key := live], h, cutoff) && a[key := live].Keys == a.Keys
            && live == Pruned(live, cutoff) && |live| == CountIn(Of(h, key), cutoff, now)
            && (live != [] ==> Rejects(Rejected(RetryAfter(live, now, window)), Of(h, key), now, window))
  {
    WindowCount(a, h, key, now, window);
    PruneKeepsAgreement(a, h, key, now - window as real);
    PrunedTwice(a[key], now - window as real, now - window as real);
  }

  /** The number the limit is compared with is the number in the window. */
  lemma WindowCount<K(!new)>(a: History<K>, h: History<K>, key: K, now: Time, window: nat)
    requires window >= 1 && AllUpTo(h, now) && AllAgree(a, h, now - window as real)
    ensures var live := Pruned(Of(a, key), now - window as real);
            && live == Pruned(Of(h, key), now - window as real)
            && |live| == CountIn(Of(h, key), now - window as real, now)
            && (live != [] ==> Rejects(Rejected(RetryAfter(live, now, window)), Of(h, key), now, window))
  {
    assert Agree(a, h, key, now - window as real);
    Lookup(Of(a, key), Of(h, key), now, window);
  }

  /** A rejection names the time the oldest attempt of the window still has to go. */
  predicate Rejects(decision: Decision, past: seq<Time>, now: Time, window: nat)
    requires decision.Rejected?
  {
    var live := Pruned(past, now - window as real);
    live != [] && decision.retryAfter == RetryAfter(live, now, window) && 1 <= decision.retryAfter <= window
  }

  /** What a check needs about a deque that agrees with a history. */
  lemma Lookup(deque: seq<Time>, past: seq<Time>, now: Time, window: nat)
    requires Sorted(past) && UpTo(past, now) && window >= 1
    requires Pruned(deque, now - window as real) == Pruned(past, now - window as real)
    ensures var cutoff, live := now - window as real, Pruned(past, now - window as real);
            && |live| == CountIn(past, cutoff, now)
            && Pruned(live, cutoff) == live
            && Pruned(live + [now], cutoff) == live + [now] == Pruned(past + [now], cutoff)
            && (live != [] ==> 1 <= RetryAfter(live, now, window) <= window)
  {
    var cutoff := now - window as real;
    PrunedCounts(past, cutoff, now);
    PrunedTwice(past, cutoff, cutoff);
    PrunedAppend(past, cutoff, now);
    PrunedAppend(Pruned(past, cutoff), cutoff, now);
    PrunedIsSuffix(past, cutoff);
  }

  /** Two pairs that differ only where both forget a key, or at a key where they agree, agree alike. */
  lemma AgreementUpdated<K(!new)>(
    a: History<K>, h: History<K>, a': History<K>, h': History<K>, gone: set<K>, key: K, cutoff: Time)
    requires AllAgree(a, h, cutoff) && Agree(a', h', key, cutoff)
    requires forall k :: k != key ==> Of(a', k) == (if k in gone then [] else Of(a, k))
    requires forall k :: k != key ==> Of(h', k) == (if k in gone then [] else Of(h, k))
    ensures AllAgree(a', h', cutoff)
  {
    forall k ensures Agree(a', h', k, cutoff) {
      assert Agree(a, h, k, cutoff);
    }
  }

  /** The deque of `k` is the old one, or the old one pruned; a missing deque counts as empty. */
  ghost predicate PrunedFrom<K>(after: History<K>, before: History<K>, k: K, cutoff: Time) {
    Of(after, k) == Of(before, k) || Of(after, k) == Pruned(Of(before, k), cutoff)
  }
}
