/** The bounded event log of every account. */
module EventLog {
  import opened Wrappers

  const MAX_EVENTS_PER_ACCOUNT := 2000

  type Id = string

  datatype Event = Event(id: int, accountId: Id, kind: string)

  ghost predicate Ascending(log: seq<Event>) {
    forall i, j :: 0 <= i < j < |log| ==> log[i].id < log[j].id
  }

  function OfAccount(rows: seq<Event>, account: Id): seq<Event> {
    if rows == [] then []
    else if rows[0].accountId == account then [rows[0]] + OfAccount(rows[1..], account)
    else OfAccount(rows[1..], account)
  }

  /** The events after a cursor. */
  function After(log: seq<Event>, cursor: int): seq<Event> {
    if log == [] then []
    else if log[0].id > cursor then [log[0]] + After(log[1..], cursor)
    else After(log[1..], cursor)
  }

  function Newest(log: seq<Event>, n: nat): seq<Event> {
    if |log| <= n then log else log[|log| - n..]
  }

  lemma FirstIsLeast(rows: seq<Event>)
    requires Ascending(rows) && rows != []
    ensures Ascending(rows[1..])
    ensures forall e :: e in rows[1..] ==> e in rows && rows[0].id < e.id
  {
    forall e | e in rows[1..] ensures e in rows && rows[0].id < e.id {
      var i :| 0 <= i < |rows| - 1 && rows[1..][i] == e;
      assert rows[i + 1] == e;
    }
  }

  lemma {:induction false} OfAccountMeans(rows: seq<Event>, account: Id)
    requires Ascending(rows)
    ensures Ascending(OfAccount(rows, account))
    ensures forall e :: e in OfAccount(rows, account) <==> e in rows && e.accountId == account
  {
    if rows != [] {
      var rest := OfAccount(rows[1..], account);
      FirstIsLeast(rows);
      OfAccountMeans(rows[1..], account);
      assert rows == [rows[0]] + rows[1..];
      forall i | 0 <= i < |rest| ensures rows[0].id < rest[i].id {
        assert rest[i] in rows[1..];
      }
    }
  }

  lemma {:induction false} OfAccountAppends(rows: seq<Event>, e: Event, account: Id)
    ensures OfAccount(rows + [e], account)
            == OfAccount(rows, account) + (if e.accountId == account then [e] else [])
  {
    if rows != [] {
      OfAccountAppends(rows[1..], e, account);
      assert (rows + [e])[1..] == rows[1..] + [e];
    }
  }

  /** In ascending order, what comes after a cursor is a suffix. */
  lemma {:induction false} AfterIsSuffix(log: seq<Event>, cursor: int) returns (k: nat)
    requires Ascending(log)
    ensures k <= |log| && After(log, cursor) == log[k..]
    ensures forall i :: 0 <= i < |log| ==> (log[i].id > cursor <==> i >= k)
  {
    if log == [] || log[0].id > cursor {
      k := 0;
      AllAfter(log, cursor);
    } else {
      k := AfterIsSuffix(log[1..], cursor);
      k := k + 1;
      assert forall i :: 1 <= i < |log| ==> log[i] == log[1..][i - 1];
    }
  }

  lemma {:induction false} AllAfter(log: seq<Event>, cursor: int)
    requires forall i :: 0 <= i < |log| ==> log[i].id > cursor
    ensures After(log, cursor) == log
  {
    if log != [] {
      AllAfter(log[1..], cursor);
    }
  }

  // ---- Retention ----

  /** The id of the oldest event an account may keep, once it has as many as it may keep. */
  function Cutoff(rows: seq<Event>, account: Id): Option<int> {
    var log := OfAccount(rows, account);
    if |log| < MAX_EVENTS_PER_ACCOUNT then None else Some(log[|log| - MAX_EVENTS_PER_ACCOUNT].id)
  }

  function Without(rows: seq<Event>, account: Id, cutoff: int): seq<Event> {
    if rows == [] then []
    else if rows[0].accountId == account && rows[0].id < cutoff then Without(rows[1..], account, cutoff)
    else [rows[0]] + Without(rows[1..], account, cutoff)
  }

  lemma {:induction false} WithoutMeans(rows: seq<Event>, account: Id, cutoff: int, b: Id)
    ensures OfAccount(Without(rows, account, cutoff), b)
            == if b == account then After(OfAccount(rows, b), cutoff - 1) else OfAccount(rows, b)
  {
    if rows != [] {
      WithoutMeans(rows[1..], account, cutoff, b);
    }
  }

  lemma {:induction false} WithoutKeepsOrder(rows: seq<Event>, account: Id, cutoff: int)
    requires Ascending(rows)
    ensures Ascending(Without(rows, account, cutoff))
    ensures forall e :: e in Without(rows, account, cutoff) ==> e in rows
  {
    if rows != [] {
      var rest := Without(rows[1..], account, cutoff);
      FirstIsLeast(rows);
      WithoutKeepsOrder(rows[1..], account, cutoff);
      forall i | 0 <= i < |rest| ensures rest[i] in rows && rows[0].id < rest[i].id {
        assert rest[i] in rows[1..];
      }
    }
  }

  /** Cutting at the cutoff keeps the newest events of the account. */
  lemma CutKeepsNewest(rows: seq<Event>, account: Id)
    requires Ascending(rows) && Cutoff(rows, account).Some?
    ensures After(OfAccount(rows, account), Cutoff(rows, account).value - 1)
            == Newest(OfAccount(rows, account), MAX_EVENTS_PER_ACCOUNT)
  {
    var log := OfAccount(rows, account);
    OfAccountMeans(rows, account);
    var k := AfterIsSuffix(log, Cutoff(rows, account).value - 1);
    var c := |log| - MAX_EVENTS_PER_ACCOUNT;
    assert c >= k;
    assert c > 0 ==> log[c - 1].id < log[c].id;
  }

  /** Every account's rows are the newest events ever recorded for it. */
  ghost predicate Retained(rows: seq<Event>, history: seq<Event>) {
    && Ascending(history) && Ascending(rows)
    && (forall e :: e in rows ==> e in history)
    && forall b :: OfAccount(rows, b) == Newest(OfAccount(history, b), MAX_EVENTS_PER_ACCOUNT)
  }

  function Recorded(rows: seq<Event>, e: Event): seq<Event> {
    var more := rows + [e];
    var cutoff := Cutoff(more, e.accountId);
    if cutoff.None? then more else Without(more, e.accountId, cutoff.value)
  }

  lemma OneMoreAscends(log: seq<Event>, e: Event)
    requires Ascending(log) && forall h :: h in log ==> h.id < e.id
    ensures Ascending(log + [e])
  {
    forall i, j | 0 <= i < j < |log + [e]| ensures (log + [e])[i].id < (log + [e])[j].id {
      assert (log + [e])[i] in log;
    }
  }

  /** Account by account, the rows after recording are the newest of the account's history. */
  lemma AccountRetained(rows: seq<Event>, history: seq<Event>, e: Event, b: Id)
    requires Ascending(rows + [e])
    requires OfAccount(rows, b) == Newest(OfAccount(history, b), MAX_EVENTS_PER_ACCOUNT)
    ensures OfAccount(Recorded(rows, e), b) == Newest(OfAccount(history + [e], b), MAX_EVENTS_PER_ACCOUNT)
  {
    var more, cutoff := rows + [e], Cutoff(rows + [e], e.accountId);
    OfAccountAppends(rows, e, b);
    OfAccountAppends(history, e, b);
    if cutoff.Some? {
      WithoutMeans(more, e.accountId, cutoff.value, b);
      CutKeepsNewest(more, e.accountId);
    }
  }

  /** Recording an event with the next id keeps every account's log exact. */
  lemma RecordingRetains(rows: seq<Event>, history: seq<Event>, e: Event)
    requires Retained(rows, history) && forall h :: h in history ==> h.id < e.id
    ensures Retained(Recorded(rows, e), history + [e])
  {
    OneMoreAscends(rows, e);
    OneMoreAscends(history, e);
    var cutoff := Cutoff(rows + [e], e.accountId);
    if cutoff.Some? {
      WithoutKeepsOrder(rows + [e], e.accountId, cutoff.value);
    }
    forall b ensures OfAccount(Recorded(rows, e), b) == Newest(OfAccount(history + [e], b), MAX_EVENTS_PER_ACCOUNT) {
      AccountRetained(rows, history, e, b);
    }
  }

  class EventStore {
    var rows: seq<Event>
    ghost var history: seq<Event>

    ghost predicate Valid()
      reads this
    {
      Retained(rows, history)
    }

    constructor ()
      ensures Valid() && rows == [] && history == []
    {
      rows, history := [], [];
    }

    /** `id` is the next of the database's identifiers, which ascend in commit order. */
    method RecordEvent(id: int, account: Id, kind: string) returns (event: Event)
      requires Valid() && forall h :: h in history ==> h.id < id
      modifies this
      ensures Valid() && event == Event(id, account, kind) && history == old(history) + [event]
      ensures OfAccount(rows, account) == Newest(OfAccount(old(history), account) + [event], MAX_EVENTS_PER_ACCOUNT)
      ensures forall b :: b != account ==> OfAccount(rows, b) == OfAccount(old(rows), b)
    {
      event := Event(id, account, kind);
      RecordingRetains(rows, history, event);
      OfAccountAppends(history, event, account);
      forall b | b != account ensures OfAccount(history + [event], b) == OfAccount(history, b) {
        OfAccountAppends(history, event, b);
      }
      ghost var next := Recorded(rows, event);
      rows, history := rows + [event], history + [event];
      var cutoff := Cutoff(rows, account);
      if cutoff.Some? {
        rows := Without(rows, account, cutoff.value);
      }
      assert rows == next;
    }
  }
}
