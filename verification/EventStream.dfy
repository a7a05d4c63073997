/** The resumable stream of one account's events: a cursor over polls of its log. */
module EventStreams {
  import opened EventLog

  const PAGE := 100
  const IDLE_POLLS := 15

  /** What one turn of the loop reads: whether the session is still active, and the account's log. */
  datatype Poll = Poll(active: bool, log: seq<Event>)

  datatype Frame = Retry | Update(id: int) | Ping(lastId: int) | Unauthorized

  // ---- What the cursor delivers ----

  function Page(log: seq<Event>, cursor: int): seq<Event> {
    var later := After(log, cursor);
    if |later| <= PAGE then later else later[..PAGE]
  }

  function Advance(log: seq<Event>, cursor: int): int {
    var page := Page(log, cursor);
    if page == [] then cursor else page[|page| - 1].id
  }

  predicate Simulation(e: Event) {
    |e.kind| >= 11 && e.kind[..11] == "simulation:"
  }

  predicate Shown(e: Event, simulations: bool) {
    simulations || !Simulation(e)
  }

  function ShownIds(events: seq<Event>, simulations: bool): seq<int> {
    if events == [] then []
    else
      var e := events[|events| - 1];
      ShownIds(events[..|events| - 1], simulations) + (if Shown(e, simulations) then [e.id] else [])
  }

  /** The cursor before the n-th poll of a stream that starts at `start`. */
  function CursorAt(polls: seq<Poll>, start: int, n: nat): int
    requires n <= |polls|
  {
    if n == 0 then start else Advance(polls[n - 1].log, CursorAt(polls, start, n - 1))
  }

  /** The ids the i-th poll delivers. */
  function PollIds(polls: seq<Poll>, start: int, simulations: bool, i: nat): seq<int>
    requires i < |polls|
  {
    ShownIds(Page(polls[i].log, CursorAt(polls, start, i)), simulations)
  }

  /** The ids delivered by the first n polls. */
  function Delivered(polls: seq<Poll>, start: int, simulations: bool, n: nat): seq<int>
    requires n <= |polls|
  {
    if n == 0 then []
    else
      Delivered(polls, start, simulations, n - 1) + PollIds(polls, start, simulations, n - 1)
  }

  /** The first poll that finds the session inactive, or the number of polls. */
  function ActivePolls(polls: seq<Poll>): (n: nat)
    ensures n <= |polls| && (n < |polls| ==> !polls[n].active) && forall i :: 0 <= i < n ==> polls[i].active
  {
    if polls == [] || !polls[0].active then 0 else 1 + ActivePolls(polls[1..])
  }

  // ---- Frames ----

  function UpdateFrames(ids: seq<int>): seq<Frame> {
    seq(|ids|, i requires 0 <= i < |ids| => Update(ids[i]))
  }

  /** How many polls, the n-th not included, have gone by since the last frame; a poll that delivers
      counts as the first after its own frames. */
  function IdleBefore(polls: seq<Poll>, start: int, simulations: bool, n: nat): nat
    requires n <= |polls|
    decreases n, 0
  {
    if n == 0 || IdleAfter(polls, start, simulations, n - 1) >= IDLE_POLLS then 0
    else IdleAfter(polls, start, simulations, n - 1)
  }

  function IdleAfter(polls: seq<Poll>, start: int, simulations: bool, i: nat): nat
    requires i < |polls|
    decreases i, 1
  {
    1 + if PollIds(polls, start, simulations, i) == [] then IdleBefore(polls, start, simulations, i) else 0
  }

  predicate Pinged(polls: seq<Poll>, start: int, simulations: bool, i: nat)
    requires i < |polls|
  {
    IdleAfter(polls, start, simulations, i) >= IDLE_POLLS
  }

  /** What the i-th poll sends: its updates, and then the cursor it reached if it pings. */
  function PollFrames(polls: seq<Poll>, start: int, simulations: bool, i: nat): seq<Frame>
    requires i < |polls|
  {
    UpdateFrames(PollIds(polls, start, simulations, i))
    + if Pinged(polls, start, simulations, i) then [Ping(CursorAt(polls, start, i + 1))] else []
  }

  /** What the first n polls of a stream send, after its retry hint. */
  function Frames(polls: seq<Poll>, start: int, simulations: bool, n: nat): seq<Frame>
    requires n <= |polls|
  {
    if n == 0 then [Retry]
    else Frames(polls, start, simulations, n - 1) + PollFrames(polls, start, simulations, n - 1)
  }

  function Silent(polls: seq<Poll>, start: int, simulations: bool): nat -> bool {
    (i: nat) => i < |polls| && PollIds(polls, start, simulations, i) == []
  }

  function Pings(polls: seq<Poll>, start: int, simulations: bool): nat -> bool {
    (i: nat) => i < |polls| && Pinged(polls, start, simulations, i)
  }

  /** No frame in the last `idle` polls but updates in the first of them, and a frame before that. */
  ghost predicate IdleSince(silent: nat -> bool, pinged: nat -> bool, n: nat, idle: nat) {
    && idle < IDLE_POLLS && idle <= n
    && (forall i :: n - idle <= i < n ==> !pinged(i))
    && (forall i :: n - idle < i < n ==> silent(i))
    && (idle < n ==> pinged(n - idle - 1) || (idle > 0 && !silent(n - idle)))
  }

  lemma IdleStep(silent: nat -> bool, pinged: nat -> bool, i: nat, n: nat, idle: nat, after: nat, next: nat)
    requires n == i + 1 && IdleSince(silent, pinged, i, idle)
    requires after == 1 + (if silent(i) then idle else 0) && (pinged(i) <==> after >= IDLE_POLLS)
    requires next == if pinged(i) then 0 else after
    ensures IdleSince(silent, pinged, n, next)
  {
  }

  lemma IdleAtStart(silent: nat -> bool, pinged: nat -> bool)
    ensures IdleSince(silent, pinged, 0, 0)
  {
  }

  lemma Turn(polls: seq<Poll>, start: int, simulations: bool, i: nat)
    requires i < |polls|
    ensures var idle, after := IdleBefore(polls, start, simulations, i), IdleAfter(polls, start, simulations, i);
            && after == 1 + (if Silent(polls, start, simulations)(i) then idle else 0)
            && (Pings(polls, start, simulations)(i) <==> after >= IDLE_POLLS)
            && IdleBefore(polls, start, simulations, i + 1) == if Pings(polls, start, simulations)(i) then 0 else after
  {
  }

  lemma {:induction false} IdleMeans(polls: seq<Poll>, start: int, simulations: bool, n: nat)
    requires n <= |polls|
    ensures IdleSince(Silent(polls, start, simulations), Pings(polls, start, simulations), n,
                      IdleBefore(polls, start, simulations, n))
  {
    if n == 0 {
      IdleAtStart(Silent(polls, start, simulations), Pings(polls, start, simulations));
    } else {
      IdleMeans(polls, start, simulations, n - 1);
      IdleTurn(polls, start, simulations, n - 1, n);
    }
  }

  lemma IdleTurn(polls: seq<Poll>, start: int, simulations: bool, i: nat, n: nat)
    requires n == i + 1 <= |polls|
    requires IdleSince(Silent(polls, start, simulations), Pings(polls, start, simulations), i,
                       IdleBefore(polls, start, simulations, i))
    ensures IdleSince(Silent(polls, start, simulations), Pings(polls, start, simulations), n,
                      IdleBefore(polls, start, simulations, n))
  {
    Turn(polls, start, simulations, i);
    IdleStep(Silent(polls, start, simulations), Pings(polls, start, simulations), i, n,
             IdleBefore(polls, start, simulations, i), IdleAfter(polls, start, simulations, i),
             IdleBefore(polls, start, simulations, n));
  }

  lemma PingIffIdle(silent: nat -> bool, pinged: nat -> bool, j: nat, idle: nat)
    requires IdleSince(silent, pinged, j, idle)
    requires pinged(j) <==> silent(j) && idle == IDLE_POLLS - 1
    ensures pinged(j) <==>
              && j >= IDLE_POLLS - 1
              && (forall i :: j - IDLE_POLLS + 1 < i <= j ==> silent(i))
              && (forall i :: j - IDLE_POLLS + 1 <= i < j ==> !pinged(i))
  {
  }

  /** A poll pings exactly when it is the fifteenth without a frame: it and the thirteen before it
      deliver nothing, and of the fourteen before it none pings. */
  lemma PingsWhenSilent(polls: seq<Poll>, start: int, simulations: bool, j: nat)
    requires j < |polls|
    ensures Pinged(polls, start, simulations, j) <==>
              && j >= IDLE_POLLS - 1
              && (forall i :: j - IDLE_POLLS + 1 < i <= j ==> PollIds(polls, start, simulations, i) == [])
              && (forall i :: j - IDLE_POLLS + 1 <= i < j ==> !Pinged(polls, start, simulations, i))
  {
    var silent, pinged := Silent(polls, start, simulations), Pings(polls, start, simulations);
    IdleMeans(polls, start, simulations, j);
    PingIffIdle(silent, pinged, j, IdleBefore(polls, start, simulations, j));
    assert forall i: nat :: i <= j ==> (silent(i) <==> PollIds(polls, start, simulations, i) == []);
    assert forall i: nat :: i <= j ==> (pinged(i) <==> Pinged(polls, start, simulations, i));
  }

  /** The stream is never silent for fifteen polls. */
  lemma NeverSilentForLong(polls: seq<Poll>, start: int, simulations: bool, i: nat) returns (j: nat)
    requires i + IDLE_POLLS <= |polls|
    ensures i <= j < i + IDLE_POLLS && PollFrames(polls, start, simulations, j) != []
  {
    if forall k :: i <= k < i + IDLE_POLLS ==> SendsNothing(polls, start, simulations, k) {
      forall k | i <= k < i + IDLE_POLLS
        ensures PollIds(polls, start, simulations, k) == [] && !Pinged(polls, start, simulations, k)
      {
        assert SendsNothing(polls, start, simulations, k);
      }
      PingsWhenSilent(polls, start, simulations, i + IDLE_POLLS - 1);
      assert false;
    }
    j :| i <= j < i + IDLE_POLLS && !SendsNothing(polls, start, simulations, j);
  }

  predicate SendsNothing(polls: seq<Poll>, start: int, simulations: bool, i: nat)
    requires i < |polls|
  {
    PollIds(polls, start, simulations, i) == [] && !Pinged(polls, start, simulations, i)
  }

  function Updates(frames: seq<Frame>): seq<int> {
    if frames == [] then []
    else
      var f := frames[|frames| - 1];
      Updates(frames[..|frames| - 1]) + (if f.Update? then [f.id] else [])
  }

  lemma {:induction false} UpdatesConcat(a: seq<Frame>, b: seq<Frame>)
    ensures Updates(a + b) == Updates(a) + Updates(b)
  {
    if b == [] {
      assert a + b == a;
    } else {
      UpdatesConcat(a, b[..|b| - 1]);
      assert (a + b)[..|a + b| - 1] == a + b[..|b| - 1];
    }
  }

  lemma {:induction false} UpdatesOf(ids: seq<int>)
    ensures Updates(UpdateFrames(ids)) == ids
  {
    if ids != [] {
      UpdatesOf(ids[..|ids| - 1]);
      assert UpdateFrames(ids)[..|ids| - 1] == UpdateFrames(ids[..|ids| - 1]);
    }
  }

  lemma UpdatesOfPoll(before: seq<Frame>, ids: seq<int>, pings: seq<Frame>)
    requires pings == [] || (|pings| == 1 && pings[0].Ping?)
    ensures Updates(before + (UpdateFrames(ids) + pings)) == Updates(before) + ids
  {
    UpdatesConcat(before, UpdateFrames(ids) + pings);
    UpdatesConcat(UpdateFrames(ids), pings);
    UpdatesOf(ids);
    assert Updates(pings) == [];
  }

  /** The updates among the frames are the delivered ids, in order. */
  lemma {:induction false} FramesDeliver(polls: seq<Poll>, start: int, simulations: bool, n: nat)
    requires n <= |polls|
    ensures Updates(Frames(polls, start, simulations, n)) == Delivered(polls, start, simulations, n)
  {
    if n == 0 {
      assert [Retry][..0] == [];
    } else {
      FramesDeliver(polls, start, simulations, n - 1);
      var before, ids := Frames(polls, start, simulations, n - 1), PollIds(polls, start, simulations, n - 1);
      var pings := if Pinged(polls, start, simulations, n - 1) then [Ping(CursorAt(polls, start, n))] else [];
      UpdatesOfPoll(before, ids, pings);
      assert Frames(polls, start, simulations, n) == before + (UpdateFrames(ids) + pings);
      assert Delivered(polls, start, simulations, n) == Delivered(polls, start, simulations, n - 1) + ids;
    }
  }

  // ---- The loop ----

  /** Sends the page of one poll. */
  method SendPage(page: seq<Event>, simulations: bool, cursor: int, frames: seq<Frame>, idle: nat)
    returns (lastId: int, sent: seq<Frame>, quiet: nat)
    ensures lastId == if page == [] then cursor else page[|page| - 1].id
    ensures sent == frames + UpdateFrames(ShownIds(page, simulations))
    ensures quiet == if ShownIds(page, simulations) == [] then idle else 0
  {
    lastId, sent, quiet := cursor, frames, idle;
    for k := 0 to |page|
      invariant lastId == if k == 0 then cursor else page[k - 1].id
      invariant sent == frames + UpdateFrames(ShownIds(page[..k], simulations))
      invariant quiet == if ShownIds(page[..k], simulations) == [] then idle else 0
    {
      lastId := page[k].id;
      assert page[..k + 1][..k] == page[..k];
      if !simulations && Simulation(page[k]) {
        continue;
      }
      sent, quiet := sent + [Update(lastId)], 0;
    }
    assert page[..|page|] == page;
  }

  /** One poll with the session active: its page, and a ping after enough polls without a frame. */
  method ServePoll(
    polls: seq<Poll>, ghost start: int, simulations: bool, n: nat, cursor: int, frames: seq<Frame>, idle: nat)
    returns (lastId: int, sent: seq<Frame>, quiet: nat)
    requires n < |polls| && cursor == CursorAt(polls, start, n) && idle == IdleBefore(polls, start, simulations, n)
    ensures lastId == CursorAt(polls, start, n + 1) && quiet == IdleBefore(polls, start, simulations, n + 1)
    ensures sent == frames + PollFrames(polls, start, simulations, n)
  {
    lastId, sent, quiet := SendPage(Page(polls[n].log, cursor), simulations, cursor, frames, idle);
    quiet := quiet + 1;
    assert quiet == IdleAfter(polls, start, simulations, n);
    if quiet >= IDLE_POLLS {
      sent := sent + [Ping(lastId)];
      quiet := 0;
    }
  }

  /** The frames of a whole stream: those of its polls one after the other as long as the session is
      active, and a closing frame exactly when it is found inactive. */
  method StreamEvents(polls: seq<Poll>, after: int, simulations: bool) returns (frames: seq<Frame>)
    ensures var n := ActivePolls(polls);
            frames == Frames(polls, if after < 0 then 0 else after, simulations, n)
                      + if n < |polls| then [Unauthorized] else []
  {
    var lastId := if after < 0 then 0 else after;
    ghost var start := lastId;
    frames := [Retry];
    var idle: nat, n: nat := 0, 0;
    while n < |polls|
      invariant n <= |polls| && forall i :: 0 <= i < n ==> polls[i].active
      invariant lastId == CursorAt(polls, start, n)
      invariant idle == IdleBefore(polls, start, simulations, n)
      invariant frames == Frames(polls, start, simulations, n)
    {
      if !polls[n].active {
        ActivePrefix(polls, n);
        frames := frames + [Unauthorized];
        return;
      }
      lastId, frames, idle := ServePoll(polls, start, simulations, n, lastId, frames, idle);
      n := n + 1;
    }
    ActivePrefix(polls, n);
  }

  lemma {:induction false} ActivePrefix(polls: seq<Poll>, n: nat)
    requires n <= |polls| && forall i :: 0 <= i < n ==> polls[i].active
    ensures n <= ActivePolls(polls)
    ensures n < |polls| && !polls[n].active ==> ActivePolls(polls) == n
  {
    if n > 0 {
      ActivePrefix(polls[1..], n - 1);
    }
  }

  // ---- What the stream is worth ----

  /** The polls see the newest events of a history that only grows, in id order. */
  ghost predicate Observes(polls: seq<Poll>, histories: seq<seq<Event>>) {
    && |histories| == |polls|
    && (forall i: nat :: i < |polls| ==> ObservedAt(polls[i].log, histories[i]))
    && forall i: nat, j: nat :: i <= j < |polls| ==> GrowsTo(histories[i], histories[j])
  }

  ghost predicate ObservedAt(log: seq<Event>, history: seq<Event>) {
    Ascending(history) && log == Newest(history, MAX_EVENTS_PER_ACCOUNT)
  }

  ghost predicate GrowsTo(history: seq<Event>, later: seq<Event>) {
    history <= later
  }

  lemma PageMeans(log: seq<Event>, cursor: int)
    requires Ascending(log)
    ensures Ascending(Page(log, cursor)) && cursor <= Advance(log, cursor)
    ensures forall e :: e in Page(log, cursor) <==> e in log && cursor < e.id <= Advance(log, cursor)
  {
    var k := AfterIsSuffix(log, cursor);
    var page := Page(log, cursor);
    PageOfSuffix(log, cursor, k);
    forall e | e in log && cursor < e.id <= Advance(log, cursor) ensures e in page {
      var i :| 0 <= i < |log| && log[i] == e;
      assert i - k < |page| && page[i - k] == e;
    }
  }

  lemma PageOfSuffix(log: seq<Event>, cursor: int, k: nat)
    requires k <= |log| && After(log, cursor) == log[k..]
    ensures var page := Page(log, cursor);
            k + |page| <= |log| && forall i :: 0 <= i < |page| ==> page[i] == log[k + i]
  {
  }

  lemma LogAscends(polls: seq<Poll>, histories: seq<seq<Event>>, i: nat)
    requires Observes(polls, histories) && i < |polls|
    ensures Ascending(polls[i].log) && forall e :: e in polls[i].log ==> e in histories[i]
  {
    assert ObservedAt(polls[i].log, histories[i]);
  }

  /** A stream without simulations hides exactly the events whose kind starts with "simulation:". */
  lemma ShownMeans(e: Event, simulations: bool)
    ensures Shown(e, simulations) <==> simulations || !("simulation:" <= e.kind)
  {
  }

  /** The event with this id is among `events` and is not a simulation hidden from the stream. */
  ghost predicate HasShown(events: seq<Event>, simulations: bool, id: int) {
    exists e :: e in events && e.id == id && (simulations || !("simulation:" <= e.kind))
  }

  ghost predicate Increasing(ids: seq<int>) {
    forall i, j :: 0 <= i < j < |ids| ==> ids[i] < ids[j]
  }

  lemma IncreasingJoin(a: seq<int>, b: seq<int>, middle: int)
    requires Increasing(a) && Increasing(b)
    requires (forall x :: x in a ==> x <= middle) && forall y :: y in b ==> middle < y
    ensures Increasing(a + b)
  {
    forall i, j | 0 <= i < j < |a + b| ensures (a + b)[i] < (a + b)[j] {
      if i < |a| <= j {
        assert a[i] in a && b[j - |a|] in b;
      }
    }
  }

  lemma {:induction false} ShownIdsMean(events: seq<Event>, simulations: bool)
    requires Ascending(events)
    ensures Increasing(ShownIds(events, simulations))
    ensures forall id :: id in ShownIds(events, simulations) <==> HasShown(events, simulations, id)
  {
    if events != [] {
      var front, last := events[..|events| - 1], events[|events| - 1];
      ShownIdsMean(front, simulations);
      ShownMeans(last, simulations);
      assert events == front + [last];
      forall id | id in ShownIds(front, simulations) ensures id <= last.id - 1 {
        assert HasShown(front, simulations, id);
      }
      IncreasingJoin(ShownIds(front, simulations), if Shown(last, simulations) then [last.id] else [], last.id - 1);
      forall id ensures HasShown(events, simulations, id) <==>
                          HasShown(front, simulations, id) || (id == last.id && Shown(last, simulations)) {
        if Shown(last, simulations) && id == last.id {
          assert last in events;
        }
      }
    }
  }

  /** Poll i found the event between its cursor and the next, and may show it. */
  ghost predicate FoundAt(polls: seq<Poll>, start: int, simulations: bool, i: nat, id: int)
    requires i < |polls|
  {
    HasShown(polls[i].log, simulations, id) && CursorAt(polls, start, i) < id <= CursorAt(polls, start, i + 1)
  }

  /** What the i-th poll delivers is what it finds. */
  ghost predicate Finds(polls: seq<Poll>, start: int, simulations: bool, i: nat)
    requires i < |polls|
  {
    && CursorAt(polls, start, i) <= CursorAt(polls, start, i + 1)
    && Increasing(PollIds(polls, start, simulations, i))
    && forall id :: id in PollIds(polls, start, simulations, i) <==> FoundAt(polls, start, simulations, i, id)
  }

  lemma OnePollFinds(polls: seq<Poll>, histories: seq<seq<Event>>, start: int, simulations: bool, i: nat)
    requires Observes(polls, histories) && i < |polls|
    ensures Finds(polls, start, simulations, i)
  {
    var log, cursor := polls[i].log, CursorAt(polls, start, i);
    LogAscends(polls, histories, i);
    PageMeans(log, cursor);
    ShownIdsMean(Page(log, cursor), simulations);
    forall id ensures HasShown(Page(log, cursor), simulations, id) <==> FoundAt(polls, start, simulations, i, id) {
      if FoundAt(polls, start, simulations, i, id) {
        var e :| e in log && e.id == id && (simulations || !("simulation:" <= e.kind));
        assert e in Page(log, cursor);
      }
    }
  }

  ghost predicate FoundBy(polls: seq<Poll>, start: int, simulations: bool, n: nat, id: int)
    requires n <= |polls|
  {
    exists i: nat :: i < n && FoundAt(polls, start, simulations, i, id)
  }

  lemma FoundByOneMore(polls: seq<Poll>, start: int, simulations: bool, n: nat, id: int)
    requires 0 < n <= |polls|
    ensures FoundBy(polls, start, simulations, n, id) <==>
              FoundBy(polls, start, simulations, n - 1, id) || FoundAt(polls, start, simulations, n - 1, id)
  {
    if FoundAt(polls, start, simulations, n - 1, id) {
      assert FoundBy(polls, start, simulations, n, id);
    } else if FoundBy(polls, start, simulations, n - 1, id) {
      var i: nat :| i < n - 1 && FoundAt(polls, start, simulations, i, id);
      assert i < n;
    }
  }

  /** The ids are strictly ascending and are those the first n polls found. */
  ghost predicate Exactly(ids: seq<int>, polls: seq<Poll>, start: int, simulations: bool, n: nat)
    requires n <= |polls|
  {
    && Increasing(ids)
    && (forall id :: id in ids ==> start < id <= CursorAt(polls, start, n))
    && forall id :: id in ids <==> FoundBy(polls, start, simulations, n, id)
  }

  lemma NothingFound(polls: seq<Poll>, start: int, simulations: bool)
    ensures Exactly([], polls, start, simulations, 0)
  {
  }

  lemma OneMorePoll(polls: seq<Poll>, start: int, simulations: bool, i: nat, n: nat)
    requires n == i + 1 <= |polls| && start <= CursorAt(polls, start, i) && Finds(polls, start, simulations, i)
    requires Exactly(Delivered(polls, start, simulations, i), polls, start, simulations, i)
    ensures start <= CursorAt(polls, start, n)
    ensures Exactly(Delivered(polls, start, simulations, n), polls, start, simulations, n)
  {
    var before, ids := Delivered(polls, start, simulations, i), PollIds(polls, start, simulations, i);
    forall id | id in ids ensures CursorAt(polls, start, i) < id <= CursorAt(polls, start, n) {
      assert FoundAt(polls, start, simulations, i, id);
    }
    IncreasingJoin(before, ids, CursorAt(polls, start, i));
    forall id ensures id in before + ids <==> FoundBy(polls, start, simulations, n, id) {
      FoundByOneMore(polls, start, simulations, n, id);
    }
    assert Delivered(polls, start, simulations, n) == before + ids;
  }

  lemma OneMoreObserved(
    polls: seq<Poll>, histories: seq<seq<Event>>, start: int, simulations: bool, i: nat, n: nat)
    requires Observes(polls, histories) && n == i + 1 <= |polls| && start <= CursorAt(polls, start, i)
    requires Exactly(Delivered(polls, start, simulations, i), polls, start, simulations, i)
    ensures start <= CursorAt(polls, start, n)
    ensures Exactly(Delivered(polls, start, simulations, n), polls, start, simulations, n)
  {
    OnePollFinds(polls, histories, start, simulations, i);
    OneMorePoll(polls, start, simulations, i, n);
  }

  /** Exactly the events some poll finds between its cursor and the next, and may show, are
      delivered, in strictly ascending order, so each at most once. */
  lemma {:induction false} DeliveredMeans(
    polls: seq<Poll>, histories: seq<seq<Event>>, start: int, simulations: bool, n: nat)
    requires Observes(polls, histories) && n <= |polls|
    ensures start <= CursorAt(polls, start, n)
    ensures Exactly(Delivered(polls, start, simulations, n), polls, start, simulations, n)
  {
    if n == 0 {
      NothingFound(polls, start, simulations);
    } else {
      DeliveredMeans(polls, histories, start, simulations, n - 1);
      OneMoreObserved(polls, histories, start, simulations, n - 1, n);
    }
  }

  /** The poll whose step of the cursor crossed an id. */
  lemma {:induction false} CrossingPoll(
    polls: seq<Poll>, histories: seq<seq<Event>>, start: int, n: nat, id: int) returns (i: nat)
    requires Observes(polls, histories) && n <= |polls|
    requires start < id <= CursorAt(polls, start, n)
    ensures i < n && CursorAt(polls, start, i) < id <= CursorAt(polls, start, i + 1)
  {
    if CursorAt(polls, start, n - 1) < id {
      i := n - 1;
    } else {
      i := CrossingPoll(polls, histories, start, n - 1, id);
    }
  }

  /** An event of the history at or below a cursor was there when the cursor was taken. */
  lemma CrossedWasThere(
    polls: seq<Poll>, histories: seq<seq<Event>>, start: int, i: nat, k: nat, e: Event)
    requires Observes(polls, histories) && i < |polls| && k < |polls| && e in histories[k]
    requires CursorAt(polls, start, i) < e.id <= CursorAt(polls, start, i + 1)
    ensures e in histories[i]
  {
    var cursor := CursorAt(polls, start, i);
    var page := Page(polls[i].log, cursor);
    LogAscends(polls, histories, i);
    PageMeans(polls[i].log, cursor);
    var top := page[|page| - 1];
    assert top in page && top in histories[i] && e.id <= top.id;
    assert Ascending(histories[i]) && Ascending(histories[k]) by {
      assert ObservedAt(polls[i].log, histories[i]) && ObservedAt(polls[k].log, histories[k]);
    }
    if i <= k {
      assert GrowsTo(histories[i], histories[k]);
      var a :| 0 <= a < |histories[k]| && histories[k][a] == e;
      var b :| 0 <= b < |histories[i]| && histories[i][b] == top;
      assert histories[k][b] == top;
      assert a <= b;
      assert histories[i][a] == e;
    } else {
      assert GrowsTo(histories[k], histories[i]);
    }
  }

  /** Nothing is lost silently: the poll that passed an event delivered it, or may not show it as a
      simulation, or no longer found it in the log, though it had been recorded. */
  lemma OnlyPrunedOrHiddenOmitted(
    polls: seq<Poll>, histories: seq<seq<Event>>, start: int, simulations: bool, n: nat, k: nat, e: Event)
    returns (i: nat)
    requires Observes(polls, histories) && n <= |polls|
    requires k < |polls| && e in histories[k] && start < e.id <= CursorAt(polls, start, n)
    ensures i < n && CursorAt(polls, start, i) < e.id <= CursorAt(polls, start, i + 1) && e in histories[i]
    ensures || e.id in PollIds(polls, start, simulations, i)
            || (!simulations && "simulation:" <= e.kind)
            || e !in polls[i].log
  {
    i := CrossingPoll(polls, histories, start, n, e.id);
    CrossedWasThere(polls, histories, start, i, k, e);
    OnePollFinds(polls, histories, start, simulations, i);
    if e in polls[i].log && (simulations || !("simulation:" <= e.kind)) {
      assert FoundAt(polls, start, simulations, i, e.id);
    }
  }

  /** A poll that finds its log exhausted leaves nothing of that log behind: everything at hand
      above the cursor is on the page as long as it fits. */
  lemma ShortPageCatchesUp(polls: seq<Poll>, histories: seq<seq<Event>>, start: int, i: nat, e: Event)
    requires Observes(polls, histories) && i < |polls|
    requires |Page(polls[i].log, CursorAt(polls, start, i))| < PAGE && e in polls[i].log
    ensures e.id <= CursorAt(polls, start, i + 1)
  {
    var log, cursor := polls[i].log, CursorAt(polls, start, i);
    LogAscends(polls, histories, i);
    var k := AfterIsSuffix(log, cursor);
    var j :| 0 <= j < |log| && log[j] == e;
    if j >= k {
      assert Page(log, cursor) == log[k..];
      assert log[k..][|log| - k - 1] == log[|log| - 1];
    }
  }
}
