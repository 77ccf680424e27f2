/**
 The session table of the legacy SSE transport (transport/legacy_sse.rs) and what
 holds over every run of it.
 */
module Sessions {
  import opened Seqs

  type Time = nat
  type Id = nat

  /** `disconnectedAt` is when the SSE stream of the session ended. */
  datatype Entry = Entry(disconnectedAt: Option<Time>)

  /** `cancelled` are the ids whose cancellation token has fired; the service loop
      holds a clone of the token, so it outlives the entry. */
  datatype Table = Table(sessions: map<Id, Entry>, cancelled: set<Id>)

  /** `receiving` says whether the service loop still holds the receiving end. */
  datatype Event =
    | Open(id: Id)
    | Deliver(id: Id, receiving: bool)
    | Disconnect(id: Id)
    | Sweep
    | CloseAll

  /** `matches!(entry.disconnected_at, Some(at) if at.elapsed() > ttl)` */
  predicate Expired(e: Entry, ttl: nat, now: Time) {
    e.disconnectedAt.Some? && e.disconnectedAt.value + ttl < now
  }

  function Connected(t: Table): set<Id> {
    set id | id in t.sessions && t.sessions[id].disconnectedAt.None?
  }

  function Apply(t: Table, ttl: nat, now: Time, e: Event): Table {
    match e
    case Open(id) => Table(t.sessions[id := Entry(None)], t.cancelled - {id})
    case Deliver(_, _) => t
    case Disconnect(id) =>
      if id !in t.sessions then t
      else
        var at := if t.sessions[id].disconnectedAt.Some? then t.sessions[id].disconnectedAt else Some(now);
        Table(t.sessions[id := Entry(at)], t.cancelled + {id})
    case Sweep =>
      Table(map id | id in t.sessions && !Expired(t.sessions[id], ttl, now) :: t.sessions[id], t.cancelled)
    case CloseAll =>
      Table(map[], t.cancelled + t.sessions.Keys)
  }

  /** The answer to a `deliver`; refusal becomes status 404. */
  predicate Accepts(t: Table, id: Id, receiving: bool) {
    id in t.sessions && receiving
  }

  class LegacySseManager {
    var sessions: map<Id, Entry>
    var cancelled: set<Id>
    const ttl: nat

    function Current(): Table
      reads this
    {
      Table(sessions, cancelled)
    }

    constructor (ttl: nat)
      ensures Current() == Table(map[], {}) && this.ttl == ttl
    {
      sessions, cancelled := map[], {};
      this.ttl := ttl;
    }

    /** `open`, given the random id */
    method Open(id: Id, now: Time)
      modifies this
      ensures Current() == Apply(old(Current()), ttl, now, Event.Open(id))
    {
      cancelled := cancelled - {id};
      sessions := sessions[id := Entry(None)];
    }

    method Deliver(id: Id, receiving: bool) returns (accepted: bool)
      ensures accepted <==> Accepts(Current(), id, receiving)
    {
      if id !in sessions {
        return false;
      }
      return receiving;
    }

    method Disconnect(id: Id, now: Time)
      modifies this
      ensures Current() == Apply(old(Current()), ttl, now, Event.Disconnect(id))
    {
      if id in sessions {
        cancelled := cancelled + {id};
        if sessions[id].disconnectedAt.None? {
          sessions := sessions[id := Entry(Some(now))];
        }
      }
    }

    /** `inner.map.retain(...)`, in any order of the entries */
    method Sweep(now: Time)
      modifies this
      ensures Current() == Apply(old(Current()), ttl, now, Event.Sweep)
    {
      var todo := sessions.Keys;
      while todo != {}
        invariant todo <= sessions.Keys <= old(sessions).Keys
        invariant forall id :: id in sessions ==> sessions[id] == old(sessions)[id]
        invariant forall id :: id in old(sessions) && id !in todo ==>
                    (id in sessions <==> !Expired(old(sessions)[id], ttl, now))
        invariant cancelled == old(cancelled)
        decreases todo
      {
        var id :| id in todo;
        todo := todo - {id};
        if Expired(sessions[id], ttl, now) {
          sessions := sessions - {id};
        }
      }
    }

    /** Cancel every session, then forget them all. */
    method CloseAll(now: Time)
      modifies this
      ensures Current() == Apply(old(Current()), ttl, now, Event.CloseAll)
    {
      var todo := sessions.Keys;
      while todo != {}
        invariant todo <= sessions.Keys
        invariant sessions == old(sessions)
        invariant cancelled == old(cancelled) + (sessions.Keys - todo)
        decreases todo
      {
        var id :| id in todo;
        cancelled := cancelled + {id};
        todo := todo - {id};
      }
      sessions := map[];
    }

    /** `inner.map.values().filter(...).count()` */
    method ActiveCount() returns (n: nat)
      ensures n == |Connected(Current())|
    {
      n := 0;
      var todo := sessions.Keys;
      ghost var counted: set<Id> := {};
      while todo != {}
        invariant todo <= sessions.Keys
        invariant counted == set id | id in sessions && id !in todo && sessions[id].disconnectedAt.None?
        invariant n == |counted|
        decreases todo
      {
        var id :| id in todo;
        todo := todo - {id};
        if sessions[id].disconnectedAt.None? {
          assert id !in counted;
          counted := counted + {id};
          n := n + 1;
        }
      }
      assert counted == Connected(Current());
    }
  }

  /** The guard held by the SSE response stream. */
  class DisconnectGuard {
    const manager: LegacySseManager
    const id: Id
    var cancelled: bool

    constructor (manager: LegacySseManager, id: Id)
      ensures this.manager == manager && this.id == id && !cancelled
    {
      this.manager, this.id, cancelled := manager, id, false;
    }

    /** The first call disconnects the session; any later one changes nothing. */
    method Fire(now: Time)
      modifies this, manager
      ensures cancelled
      ensures manager.Current() ==
              if old(cancelled) then old(manager.Current())
              else Apply(old(manager.Current()), manager.ttl, now, Event.Disconnect(id))
    {
      if !cancelled {
        cancelled := true;
        manager.Disconnect(id, now);
      }
    }

    /** The stream is dropped. */
    method Drop(now: Time)
      modifies this, manager
      ensures manager.Current() ==
              if old(cancelled) then old(manager.Current())
              else Apply(old(manager.Current()), manager.ttl, now, Event.Disconnect(id))
    {
      Fire(now);
    }
  }

  // ----- runs -----

  datatype Timed = Timed(now: Time, event: Event)

  /** The table after the first `k` events. */
  function At(ttl: nat, run: seq<Timed>, k: nat): Table
    requires k <= |run|
  {
    if k == 0 then Table(map[], {})
    else Apply(At(ttl, run, k - 1), ttl, run[k - 1].now, run[k - 1].event)
  }

  ghost predicate ClockRuns(run: seq<Timed>) {
    forall i, j :: 0 <= i < j < |run| ==> run[i].now <= run[j].now
  }

  /** No id is handed out twice. */
  ghost predicate FreshIds(run: seq<Timed>) {
    forall i, j :: 0 <= i < j < |run| && run[i].event.Open? && run[j].event.Open? ==>
      run[i].event.id != run[j].event.id
  }

  ghost predicate Happens(run: seq<Timed>, e: Event, i: nat, j: nat) {
    exists m :: i <= m < j <= |run| && run[m].event == e
  }

  /** A disconnected session is cancelled. */
  lemma {:induction false} DisconnectedIsCancelled(ttl: nat, run: seq<Timed>, k: nat, id: Id)
    requires k <= |run| && id in At(ttl, run, k).sessions
    requires At(ttl, run, k).sessions[id].disconnectedAt.Some?
    ensures id in At(ttl, run, k).cancelled
  {
    if id in At(ttl, run, k - 1).sessions && At(ttl, run, k - 1).sessions[id].disconnectedAt.Some? {
      DisconnectedIsCancelled(ttl, run, k - 1, id);
    }
  }

  /** Only an `open` puts an id into the table. */
  lemma {:induction false} WasOpened(ttl: nat, run: seq<Timed>, k: nat, id: Id) returns (m: nat)
    requires k <= |run| && id in At(ttl, run, k).sessions
    ensures m < k && run[m].event == Open(id)
  {
    if id in At(ttl, run, k - 1).sessions {
      m := WasOpened(ttl, run, k - 1, id);
    } else {
      m := k - 1;
    }
  }

  /** What the next event leaves of a session that it does not open. */
  lemma StepOf(t: Table, ttl: nat, now: Time, e: Event, id: Id)
    requires e != Open(id)
    ensures var u := Apply(t, ttl, now, e);
            && (id in t.cancelled ==> id in u.cancelled)
            && (id in u.sessions ==> id in t.sessions)
            && (id in u.sessions && t.sessions[id].disconnectedAt.Some? ==> u.sessions[id] == t.sessions[id])
            && (id in t.sessions && id !in u.sessions ==>
                  e.CloseAll? || (e.Sweep? && Expired(t.sessions[id], ttl, now)))
            && (id in t.sessions && e.CloseAll? ==> id in u.cancelled)
  {
  }

  lemma NotOpenedAgain(ttl: nat, run: seq<Timed>, m: nat, j: nat, id: Id)
    requires FreshIds(run) && m < j < |run| && run[m].event == Open(id)
    ensures run[j].event != Open(id)
  {
  }

  /** Once set, the time of disconnection never moves. */
  lemma {:induction false} DisconnectTimeFixed(ttl: nat, run: seq<Timed>, i: nat, j: nat, id: Id)
    requires FreshIds(run) && i <= j <= |run|
    requires id in At(ttl, run, i).sessions && At(ttl, run, i).sessions[id].disconnectedAt.Some?
    ensures id in At(ttl, run, j).sessions ==> At(ttl, run, j).sessions[id] == At(ttl, run, i).sessions[id]
    decreases j
  {
    if i < j {
      DisconnectTimeFixed(ttl, run, i, j - 1, id);
      var m := WasOpened(ttl, run, i, id);
      NotOpenedAgain(ttl, run, m, j - 1, id);
      StepOf(At(ttl, run, j - 1), ttl, run[j - 1].now, run[j - 1].event, id);
    }
  }

  /** An id that has left the table is never served again. */
  lemma {:induction false} GoneForGood(ttl: nat, run: seq<Timed>, m: nat, i: nat, j: nat, id: Id)
    requires FreshIds(run) && m < i <= j <= |run| && run[m].event == Open(id)
    requires id !in At(ttl, run, i).sessions
    ensures id !in At(ttl, run, j).sessions
    ensures forall receiving :: !Accepts(At(ttl, run, j), id, receiving)
    decreases j
  {
    if i < j {
      GoneForGood(ttl, run, m, i, j - 1, id);
      NotOpenedAgain(ttl, run, m, j - 1, id);
      StepOf(At(ttl, run, j - 1), ttl, run[j - 1].now, run[j - 1].event, id);
    }
  }

  /** No session leaves the table without being cancelled, and a fired token stays so. */
  lemma {:induction false} LeavesCancelled(ttl: nat, run: seq<Timed>, m: nat, k: nat, id: Id)
    requires FreshIds(run) && m < k <= |run| && run[m].event == Open(id)
    requires id !in At(ttl, run, k).sessions
    ensures id in At(ttl, run, k).cancelled
    decreases k
  {
    if m < k - 1 {
      NotOpenedAgain(ttl, run, m, k - 1, id);
      StepOf(At(ttl, run, k - 1), ttl, run[k - 1].now, run[k - 1].event, id);
      if id in At(ttl, run, k - 1).sessions {
        if !run[k - 1].event.CloseAll? {
          DisconnectedIsCancelled(ttl, run, k - 1, id);
        }
      } else {
        LeavesCancelled(ttl, run, m, k - 1, id);
      }
    }
  }

  /** A session is connected exactly when it was opened and, since, neither its
      stream was dropped nor the server shut down: no sweep touches it. */
  lemma {:induction false} ConnectedExactly(ttl: nat, run: seq<Timed>, m: nat, k: nat, id: Id)
    requires FreshIds(run) && m < k <= |run| && run[m].event == Open(id)
    ensures id in Connected(At(ttl, run, k)) <==>
            !Happens(run, Disconnect(id), m + 1, k) && !Happens(run, CloseAll, m + 1, k)
    decreases k
  {
    if m < k - 1 {
      ConnectedExactly(ttl, run, m, k - 1, id);
      NotOpenedAgain(ttl, run, m, k - 1, id);
      HappensSplit(run, Disconnect(id), m + 1, k);
      HappensSplit(run, CloseAll, m + 1, k);
      hide Happens;
      StepOf(At(ttl, run, k - 1), ttl, run[k - 1].now, run[k - 1].event, id);
    }
  }

  lemma HappensSplit(run: seq<Timed>, e: Event, i: nat, k: nat)
    requires i < k <= |run|
    ensures Happens(run, e, i, k) <==> Happens(run, e, i, k - 1) || run[k - 1].event == e
  {
  }

  /** Firing the guard twice is firing it once. */
  lemma DisconnectTwice(t: Table, ttl: nat, id: Id, now: Time, later: Time)
    ensures var u := Apply(t, ttl, now, Disconnect(id));
            Apply(u, ttl, later, Disconnect(id)) == u
  {
    var u := Apply(t, ttl, now, Disconnect(id));
    if id in t.sessions {
      assert u.sessions[id := u.sessions[id]] == u.sessions;
      assert u.cancelled + {id} == u.cancelled;
    }
  }

  // ----- how long a disconnected session stays -----

  /** A sweep between events `i` and `k` that comes after time `limit`. */
  ghost predicate SweptAfter(run: seq<Timed>, i: nat, k: nat, limit: Time) {
    exists m :: i <= m < k <= |run| && run[m].event.Sweep? && run[m].now > limit
  }

  lemma SweptAfterSplit(run: seq<Timed>, i: nat, k: nat, limit: Time)
    requires i < k <= |run|
    ensures SweptAfter(run, i, k, limit) <==>
            SweptAfter(run, i, k - 1, limit) || (run[k - 1].event.Sweep? && run[k - 1].now > limit)
  {
  }

  /** The stream of a connected session is dropped by event `i`. */
  ghost predicate Drops(ttl: nat, run: seq<Timed>, i: nat, id: Id) {
    i < |run| && run[i].event == Disconnect(id) && id in Connected(At(ttl, run, i))
  }

  /** Without shutdown a session disconnected at `t` is in the table until the first
      sweep after `t + ttl`, and is gone from then on. */
  lemma {:induction false} StaysUntilSwept(ttl: nat, run: seq<Timed>, i: nat, k: nat, id: Id)
    requires FreshIds(run) && Drops(ttl, run, i, id) && i < k <= |run|
    requires !Happens(run, CloseAll, i, k)
    ensures var t, sessions := run[i].now, At(ttl, run, k).sessions;
            && (id in sessions <==> !SweptAfter(run, i + 1, k, t + ttl))
            && (id in sessions ==> sessions[id] == Entry(Some(t)))
    decreases k
  {
    if i < k - 1 {
      HappensSplit(run, CloseAll, i, k);
      SweptAfterSplit(run, i + 1, k, run[i].now + ttl);
      StaysUntilSwept(ttl, run, i, k - 1, id);
      var m := WasOpened(ttl, run, i, id);
      NotOpenedAgain(ttl, run, m, k - 1, id);
      hide Happens, SweptAfter, FreshIds;
      StepOf(At(ttl, run, k - 1), ttl, run[k - 1].now, run[k - 1].event, id);
    }
  }

  /** A session disconnected at `t` is still there, with `t`, after any event up to
      `t + ttl`. */
  lemma StaysForTtl(ttl: nat, run: seq<Timed>, i: nat, k: nat, id: Id)
    requires ClockRuns(run) && FreshIds(run) && Drops(ttl, run, i, id) && i < k <= |run|
    requires !Happens(run, CloseAll, i, k)
    requires run[k - 1].now <= run[i].now + ttl
    ensures var sessions := At(ttl, run, k).sessions;
            id in sessions && sessions[id] == Entry(Some(run[i].now))
  {
    StaysUntilSwept(ttl, run, i, k, id);
  }

  ghost predicate SweptWithin(run: seq<Timed>, from: Time, d: nat) {
    exists m :: 0 <= m < |run| && run[m].event.Sweep? && from < run[m].now <= from + d
  }

  /** As long as the run lasts, every period of length `d` holds a sweep. */
  ghost predicate SweepsEvery(run: seq<Timed>, d: nat) {
    run == [] || forall from: Time :: from + d <= run[|run| - 1].now ==> SweptWithin(run, from, d)
  }

  lemma {:induction false} OnceSwept(ttl: nat, run: seq<Timed>, i: nat, k: nat, id: Id)
    requires FreshIds(run) && Drops(ttl, run, i, id) && i < k <= |run|
    requires SweptAfter(run, i + 1, k, run[i].now + ttl)
    ensures id !in At(ttl, run, k).sessions
    decreases k
  {
    var m := WasOpened(ttl, run, i, id);
    SweptAfterSplit(run, i + 1, k, run[i].now + ttl);
    var t := At(ttl, run, k - 1);
    if SweptAfter(run, i + 1, k - 1, run[i].now + ttl) {
      OnceSwept(ttl, run, i, k - 1, id);
      GoneForGood(ttl, run, m, k - 1, k, id);
    } else if id in t.sessions {
      assert At(ttl, run, i + 1).sessions[id] == Entry(Some(run[i].now));
      DisconnectTimeFixed(ttl, run, i + 1, k - 1, id);
    } else {
      GoneForGood(ttl, run, m, k - 1, k, id);
    }
  }

  /** With sweeps at most `d` apart, any event later than `t + ttl + d` finds a session
      that was disconnected at `t` gone. */
  lemma GoneAfterTtl(ttl: nat, d: nat, run: seq<Timed>, i: nat, k: nat, id: Id)
    requires ClockRuns(run) && FreshIds(run) && SweepsEvery(run, d) && Drops(ttl, run, i, id)
    requires k < |run| && run[k].now > run[i].now + ttl + d
    ensures i < k && id !in At(ttl, run, k).sessions
  {
    var limit := run[i].now + ttl;
    assert run[k].now <= run[|run| - 1].now;
    assert SweptWithin(run, limit, d);
    var m :| 0 <= m < |run| && run[m].event.Sweep? && limit < run[m].now <= limit + d;
    assert i + 1 <= m < k;
    assert SweptAfter(run, i + 1, k, limit);
    OnceSwept(ttl, run, i, k, id);
  }

  // ----- cancellation and service -----

  /** Only a disconnect or the shutdown fires a token. */
  lemma StepCancels(t: Table, ttl: nat, now: Time, e: Event, id: Id)
    requires e != Open(id)
    ensures var u := Apply(t, ttl, now, e);
            id in u.cancelled <==> id in t.cancelled || (id in t.sessions && (e == Disconnect(id) || e.CloseAll?))
  {
  }

  /** Since it was opened, a session is cancelled exactly when its stream was dropped or
      the server shut down. */
  lemma {:induction false} CancelledExactly(ttl: nat, run: seq<Timed>, m: nat, k: nat, id: Id)
    requires FreshIds(run) && m < k <= |run| && run[m].event == Open(id)
    ensures id in At(ttl, run, k).cancelled <==>
            Happens(run, Disconnect(id), m + 1, k) || Happens(run, CloseAll, m + 1, k)
    decreases k
  {
    if m < k - 1 {
      CancelledExactly(ttl, run, m, k - 1, id);
      NotOpenedAgain(ttl, run, m, k - 1, id);
      HappensSplit(run, Disconnect(id), m + 1, k);
      HappensSplit(run, CloseAll, m + 1, k);
      StepCancels(At(ttl, run, k - 1), ttl, run[k - 1].now, run[k - 1].event, id);
      if id !in At(ttl, run, k - 1).sessions {
        LeavesCancelled(ttl, run, m, k - 1, id);
      }
    }
  }

  /** A connected session is served as long as its receiver is there, and a message never
      reaches a receiver that is gone. */
  lemma ConnectedIsServed(ttl: nat, run: seq<Timed>, m: nat, k: nat, id: Id)
    requires FreshIds(run) && m < k <= |run| && run[m].event == Open(id)
    requires !Happens(run, Disconnect(id), m + 1, k) && !Happens(run, CloseAll, m + 1, k)
    ensures Accepts(At(ttl, run, k), id, true) && !Accepts(At(ttl, run, k), id, false)
  {
    ConnectedExactly(ttl, run, m, k, id);
  }

  /** After its stream was dropped it is, until it is swept. */
  lemma ServedUntilSwept(ttl: nat, run: seq<Timed>, i: nat, k: nat, id: Id)
    requires FreshIds(run) && Drops(ttl, run, i, id) && i < k <= |run|
    requires !Happens(run, CloseAll, i, k)
    ensures Accepts(At(ttl, run, k), id, true) <==> !SweptAfter(run, i + 1, k, run[i].now + ttl)
    ensures !Accepts(At(ttl, run, k), id, false)
  {
    StaysUntilSwept(ttl, run, i, k, id);
  }
}
