/** What every run of the table keeps: replicas built from events alone agree with the
    table, generations count modify events, tidying drops exactly the slots that gave up. */
module StoreReplicas {
  import opened Dom
  import opened Schema
  import opened StoreModel

  // ---- replicas ---------------------------------------------------------

  /** What a subscriber that keeps a key-to-data map makes of an event. */
  function Replay(h: Hasher, v: View, e: Event): View {
    match e
    case Inserted(k, d, _) => v[h.Id(k) := d]
    case Modified(k, idx, o, _, _) =>
      var id := h.Id(k);
      if id in v && idx < |v[id]| then v[id := v[id][idx := o]] else v
    case Removed(k, _) => v - {h.Id(k)}
    case Cleared => map[]
    case Trx(_) => v
  }

  /** The map that slot `s` holds after the calls made so far. */
  function Replica(h: Hasher, calls: seq<Call>, s: SlotId): View
    decreases |calls|
  {
    if calls == [] then map[]
    else
      var v := Replica(h, calls[..|calls| - 1], s);
      if calls[|calls| - 1].slot == s then Replay(h, v, calls[|calls| - 1].event) else v
  }

  predicate Mirrors(h: Hasher, st: Store, s: SlotId) {
    Replica(h, st.hub.calls, s) == DataOf(st.rows)
  }

  lemma {:induction false} ReplicaStep(h: Hasher, calls: seq<Call>, c: Call, s: SlotId)
    ensures Replica(h, calls + [c], s) ==
      if c.slot == s then Replay(h, Replica(h, calls, s), c.event) else Replica(h, calls, s)
  {
  }

  lemma CommitReplays(h: Hasher, rows: Rows, e: Event)
    ensures DataOf(Commit(h, rows, e)) == Replay(h, DataOf(rows), e)
  {
  }

  lemma ReplayTwice(h: Hasher, v: View, e: Event)
    ensures Replay(h, Replay(h, v, e), e) == Replay(h, v, e)
  {
    match e
    case Modified(k, idx, o, _, _) =>
      if h.Id(k) in v && idx < |v[h.Id(k)]| {
        assert v[h.Id(k)][idx := o][idx := o] == v[h.Id(k)][idx := o];
      }
    case _ =>
  }

  /** However often a slot is listed, one event changes its replica once. */
  lemma {:induction false} NotifyReplays(h: Hasher, calls: seq<Call>, slots: seq<SlotId>, e: Event, s: SlotId)
    ensures Replica(h, calls + Notify(slots, e), s) ==
      if s in slots then Replay(h, Replica(h, calls, s), e) else Replica(h, calls, s)
    decreases |slots|
  {
    if slots == [] {
      assert calls + Notify(slots, e) == calls;
    } else {
      var n := |slots| - 1;
      assert calls + Notify(slots, e) == (calls + Notify(slots[..n], e)) + [Call(slots[n], e)];
      assert slots == slots[..n] + [slots[n]];
      NotifyReplays(h, calls, slots[..n], e, s);
      ReplicaStep(h, calls + Notify(slots[..n], e), Call(slots[n], e), s);
      ReplayTwice(h, Replica(h, calls, s), e);
    }
  }

  lemma {:induction false} RemoveFirstKeeps(vec: seq<SlotId>, s: SlotId)
    ensures multiset(RemoveFirst(vec, s)) == multiset(vec) - multiset{s}
    decreases |vec|
  {
    if vec != [] {
      assert vec == [vec[0]] + vec[1..];
      if vec[0] != s {
        RemoveFirstKeeps(vec[1..], s);
      }
    }
  }

  lemma {:induction false} TidyKeeps(vec: seq<SlotId>, expired: seq<SlotId>)
    ensures multiset(Tidy(vec, expired)) == multiset(vec) - multiset(expired)
    decreases |expired|
  {
    if expired != [] {
      assert expired == [expired[0]] + expired[1..];
      RemoveFirstKeeps(vec, expired[0]);
      TidyKeeps(RemoveFirst(vec, expired[0]), expired[1..]);
    }
  }

  lemma ForwardOnlyDrops(hub: Hub, e: Event, answers: Answers, s: SlotId)
    requires s in Forward(hub, e, answers).onInsert
    ensures s in hub.onInsert
  {
    TidyKeeps(hub.onInsert, Reverse(Answering(hub.onInsert, |hub.calls|, answers, false)));
    assert s in multiset(Forward(hub, e, answers).onInsert);
    assert s in multiset(hub.onInsert);
  }

  /** A slot still listed after a list of events has replayed all of them. */
  lemma {:induction false} PublishMirrors(h: Hasher, st: Store, events: seq<Event>, answers: Answers, s: SlotId)
    requires Mirrors(h, st, s)
    requires s in ForwardAll(st.hub, events, answers).onInsert
    ensures s in st.hub.onInsert
    ensures Mirrors(h, Publish(h, st, events, answers), s)
    decreases |events|
  {
    if events != [] {
      var e := events[0];
      var next := Store(Commit(h, st.rows, e), Forward(st.hub, e, answers), st.log + [e]);
      StillListed(next.hub, events[1..], answers, s);
      ForwardOnlyDrops(st.hub, e, answers, s);
      CommitReplays(h, st.rows, e);
      NotifyReplays(h, st.hub.calls, st.hub.onInsert, e, s);
      PublishMirrors(h, next, events[1..], answers, s);
    }
  }

  lemma {:induction false} StillListed(hub: Hub, events: seq<Event>, answers: Answers, s: SlotId)
    requires s in ForwardAll(hub, events, answers).onInsert
    ensures s in hub.onInsert
    decreases |events|
  {
    if events != [] {
      StillListed(Forward(hub, events[0], answers), events[1..], answers, s);
      ForwardOnlyDrops(hub, events[0], answers, s);
    }
  }

  lemma OneMoreRow(v: View, rows: Rows, order: seq<KeyId>)
    requires order != [] && forall i :: 0 <= i < |order| ==> order[i] in rows
    ensures var n := |order| - 1;
      (v + map id | id in order[..n] :: rows[id].data)[order[n] := rows[order[n]].data]
        == v + map id | id in order :: rows[id].data
  {
  }

  lemma {:induction false} RowCallsReplay(h: Hasher, m: Meta, calls: seq<Call>, rows: Rows, order: seq<KeyId>,
                                          s: SlotId, t: SlotId)
    requires m.Valid() && WellFiled(h, m, rows)
    requires forall i :: 0 <= i < |order| ==> order[i] in rows
    ensures Replica(h, calls + RowCalls(t, rows, order), s) ==
      if s == t then Replica(h, calls, s) + map id | id in order :: rows[id].data else Replica(h, calls, s)
    decreases |order|
  {
    if order == [] {
      assert calls + RowCalls(t, rows, order) == calls;
    } else {
      var n := |order| - 1;
      var r := rows[order[n]];
      var last := Charging(t, Inserted(r.key, r.data, r.gen));
      var before := calls + RowCalls(t, rows, order[..n]);
      RowCallsReplay(h, m, calls, rows, order[..n], s, t);
      ReplicaStep(h, before, last, s);
      assert calls + RowCalls(t, rows, order) == before + [last];
      OneMoreRow(Replica(h, calls, s), rows, order);
    }
  }

  /** Charging lays the table's data over whatever the new subscriber held, in whatever order. */
  lemma {:induction false} ChargeReplays(h: Hasher, m: Meta, calls: seq<Call>, rows: Rows, order: seq<KeyId>,
                                         s: SlotId, t: SlotId)
    requires m.Valid() && WellFiled(h, m, rows) && Enumerates(order, rows.Keys)
    ensures Replica(h, calls + ChargeCalls(t, rows, order), s) ==
      if s == t then Replica(h, calls, s) + DataOf(rows) else Replica(h, calls, s)
  {
    var c0 := calls + [Charging(t, Trx(true))];
    assert calls + ChargeCalls(t, rows, order) == (c0 + RowCalls(t, rows, order)) + [Charging(t, Trx(false))];
    ReplicaStep(h, calls, Charging(t, Trx(true)), s);
    RowCallsReplay(h, m, c0, rows, order, s, t);
    ReplicaStep(h, c0 + RowCalls(t, rows, order), Charging(t, Trx(false)), s);
    assert (map id | id in order :: rows[id].data) == DataOf(rows);
  }

  /** connect() makes a slot's replica right exactly when it held no key the table has not:
      a slot that was away while rows were erased keeps them. */
  lemma {:induction false} ConnectMirrors(h: Hasher, m: Meta, answers: Answers, st: Store, s: SlotId, order: seq<KeyId>)
    requires m.Valid() && WellFiled(h, m, st.rows) && Enumerates(order, st.rows.Keys)
    ensures s in Step(h, m, answers, st, Connect(s, order)).hub.onInsert
    ensures Mirrors(h, Step(h, m, answers, st, Connect(s, order)), s) <==>
      Replica(h, st.hub.calls, s).Keys <= st.rows.Keys
  {
    ChargeReplays(h, m, st.hub.calls, st.rows, order, s, s);
    var v := Replica(h, st.hub.calls, s);
    var w := v + DataOf(st.rows);
    assert w.Keys == v.Keys + st.rows.Keys;
    assert DataOf(st.rows).Keys == st.rows.Keys;
    if v.Keys <= st.rows.Keys {
      assert w == DataOf(st.rows);
    }
  }

  // ---- every step keeps the table well filed ----------------------------

  predicate Fits(h: Hasher, m: Meta, e: Event)
    requires m.Valid()
  {
    e.Inserted? ==> m.CheckIntegrity(e.key, e.data)
  }

  lemma {:induction false} CommitFiled(h: Hasher, m: Meta, rows: Rows, events: seq<Event>)
    requires m.Valid() && WellFiled(h, m, rows)
    requires forall i :: 0 <= i < |events| ==> Fits(h, m, events[i])
    ensures WellFiled(h, m, CommitAll(h, rows, events))
    decreases |events|
  {
    if events != [] {
      assert Fits(h, m, events[0]);
      CommitFiled(h, m, Commit(h, rows, events[0]), events[1..]);
    }
  }

  lemma {:induction false} OnlyModified(h: Hasher, key: seq<Obj>, cur: seq<Obj>, gen: Gen, data: seq<Obj>, idx: nat)
    requires |cur| == |data| && idx <= |data|
    ensures forall e :: e in UpdateEvents(h, key, cur, gen, data, idx) ==> e.Modified?
    decreases |data| - idx
  {
    if idx < |data| {
      OnlyModified(h, key, cur[idx := data[idx]], NextGen(gen), data, idx + 1);
      OnlyModified(h, key, cur, gen, data, idx + 1);
    }
  }

  lemma {:induction false} OnlyModifiedAttrs(h: Hasher, key: seq<Obj>, cur: seq<Obj>, gen: Gen, attrs: seq<(nat, Obj)>)
    ensures forall e :: e in ModifyEvents(h, key, cur, gen, attrs) ==> e.Modified?
    decreases |attrs|
  {
    if attrs != [] {
      var (idx, v) := attrs[0];
      if idx < |cur| {
        OnlyModifiedAttrs(h, key, cur[idx := v], NextGen(gen), attrs[1..]);
      }
      OnlyModifiedAttrs(h, key, cur, gen, attrs[1..]);
    }
  }

  lemma {:induction false} OnlyRemoved(rows: Rows, pred: Row -> bool, order: seq<KeyId>)
    requires forall i :: 0 <= i < |order| ==> order[i] in rows
    ensures forall e :: e in EraseEvents(rows, pred, order) ==> e.Removed?
    decreases |order|
  {
    if order != [] {
      OnlyRemoved(rows, pred, order[1..]);
    }
  }

  lemma EventsFit(h: Hasher, m: Meta, rows: Rows, op: Request)
    requires m.Valid() && WellFiled(h, m, rows) && Enabled(rows, op)
    ensures forall e :: e in EventsOf(h, m, rows, op) ==> Fits(h, m, e)
  {
    match op
    case Merge(k, d, g) =>
      if m.CheckIntegrity(k, d) && h.Id(k) in rows {
        OnlyModified(h, k, rows[h.Id(k)].data, rows[h.Id(k)].gen, d, 0);
      }
    case Modify(k, idx, v) =>
      if h.Id(k) in rows { OnlyModifiedAttrs(h, k, rows[h.Id(k)].data, rows[h.Id(k)].gen, [(idx, v)]); }
    case ModifyAll(k, attrs) =>
      if h.Id(k) in rows { OnlyModifiedAttrs(h, k, rows[h.Id(k)].data, rows[h.Id(k)].gen, attrs); }
    case Compute(k, idx, fn) =>
      if h.Id(k) in rows && idx < |rows[h.Id(k)].data| {
        OnlyModifiedAttrs(h, k, rows[h.Id(k)].data, rows[h.Id(k)].gen, [(idx, fn(rows[h.Id(k)].data[idx]))]);
      }
    case EraseIf(pred, order) => OnlyRemoved(rows, pred, order);
    case _ =>
  }

  lemma StepFiled(h: Hasher, m: Meta, answers: Answers, st: Store, op: Request)
    requires m.Valid() && WellFiled(h, m, st.rows) && Enabled(st.rows, op)
    ensures WellFiled(h, m, Step(h, m, answers, st, op).rows)
  {
    EventsFit(h, m, st.rows, op);
    CommitFiled(h, m, st.rows, EventsOf(h, m, st.rows, op));
  }

  /** One operation of any kind keeps every replica that is still listed in agreement. */
  lemma StepMirrors(h: Hasher, m: Meta, answers: Answers, st: Store, op: Request, s: SlotId)
    requires m.Valid() && WellFiled(h, m, st.rows) && Enabled(st.rows, op)
    requires Mirrors(h, st, s)
    requires s in Step(h, m, answers, st, op).hub.onInsert
    ensures Mirrors(h, Step(h, m, answers, st, op), s)
  {
    match op
    case Connect(t, order) =>
      ChargeReplays(h, m, st.hub.calls, st.rows, order, s, t);
      assert DataOf(st.rows) + DataOf(st.rows) == DataOf(st.rows);
    case ConnectOnlyTo(_) =>
    case DisconnectFrom(_) =>
    case _ => PublishMirrors(h, st, EventsOf(h, m, st.rows, op), answers, s);
  }

  // ---- runs -------------------------------------------------------------

  /** The states of a run: each next state is one enabled operation away. */
  ghost predicate Run(h: Hasher, m: Meta, answers: Answers, states: seq<Store>, ops: seq<Request>)
    requires m.Valid()
  {
    && |states| == |ops| + 1
    && forall i :: 0 <= i < |ops| ==> Taken(h, m, answers, states[i], ops[i], states[i + 1])
  }

  ghost predicate Taken(h: Hasher, m: Meta, answers: Answers, st: Store, op: Request, st': Store)
    requires m.Valid()
  {
    WellFiled(h, m, st.rows) && Enabled(st.rows, op) && st' == Step(h, m, answers, st, op)
  }

  /** Every published event sent to `s` so far was answered true; what it answered while it
      was being charged does not matter. */
  predicate Alive(calls: seq<Call>, answers: Answers, s: SlotId) {
    forall i :: 0 <= i < |calls| && calls[i].Call? && calls[i].slot == s ==> answers(i)
  }

  lemma {:induction false} AnsweringMembers(vec: seq<SlotId>, n: nat, answers: Answers, verdict: bool, s: SlotId)
    ensures s in Answering(vec, n, answers, verdict) <==> Answered(vec, n, answers, verdict, s)
    decreases |vec|
  {
    if vec != [] {
      AnsweringMembers(vec[1..], n + 1, answers, verdict, s);
      AnsweredMore(vec, n, answers, verdict, s);
    }
  }

  /** Some call to `s` among those of this event got that answer. */
  ghost predicate Answered(vec: seq<SlotId>, n: nat, answers: Answers, verdict: bool, s: SlotId) {
    exists i :: 0 <= i < |vec| && vec[i] == s && answers(n + i) == verdict
  }

  lemma AnsweredMore(vec: seq<SlotId>, n: nat, answers: Answers, verdict: bool, s: SlotId)
    requires vec != []
    ensures Answered(vec, n, answers, verdict, s) <==>
      (vec[0] == s && answers(n) == verdict) || Answered(vec[1..], n + 1, answers, verdict, s)
  {
  }

  lemma {:induction false} TidySpares(vec: seq<SlotId>, expired: seq<SlotId>, s: SlotId)
    requires s in vec && s !in expired
    ensures s in Tidy(vec, Reverse(expired))
  {
    ReverseMultiset(expired);
    TidyKeeps(vec, Reverse(expired));
    assert multiset(vec)[s] > 0 && multiset(expired)[s] == 0;
    assert s in multiset(Tidy(vec, Reverse(expired)));
  }

  /** Tidying never touches a slot that keeps answering true. */
  lemma ForwardKeepsAlive(hub: Hub, e: Event, answers: Answers, s: SlotId)
    requires s in hub.onInsert && Alive(Forward(hub, e, answers).calls, answers, s)
    ensures s in Forward(hub, e, answers).onInsert
  {
    var n := |hub.calls|;
    forall i | 0 <= i < |hub.onInsert| && hub.onInsert[i] == s ensures answers(n + i) {
      assert Forward(hub, e, answers).calls[n + i] == Call(s, e);
    }
    AnsweringMembers(hub.onInsert, n, answers, false, s);
    TidySpares(hub.onInsert, Answering(hub.onInsert, n, answers, false), s);
  }

  lemma {:induction false} ForwardAllCalls(hub: Hub, events: seq<Event>, answers: Answers)
    ensures hub.calls <= ForwardAll(hub, events, answers).calls
    decreases |events|
  {
    if events != [] {
      ForwardAllCalls(Forward(hub, events[0], answers), events[1..], answers);
    }
  }

  lemma {:induction false} ForwardAllKeepsAlive(hub: Hub, events: seq<Event>, answers: Answers, s: SlotId)
    requires s in hub.onInsert && Alive(ForwardAll(hub, events, answers).calls, answers, s)
    ensures s in ForwardAll(hub, events, answers).onInsert
    decreases |events|
  {
    if events != [] {
      var next := Forward(hub, events[0], answers);
      ForwardAllCalls(next, events[1..], answers);
      var calls := ForwardAll(hub, events, answers).calls;
      assert forall i :: 0 <= i < |next.calls| ==> next.calls[i] == calls[i];
      ForwardKeepsAlive(hub, events[0], answers, s);
      ForwardAllKeepsAlive(next, events[1..], answers, s);
    }
  }

  lemma {:induction false} RemoveOther(vec: seq<SlotId>, t: SlotId, s: SlotId)
    requires s in vec && s != t
    ensures s in RemoveFirst(vec, t)
  {
    RemoveFirstKeeps(vec, t);
    assert s in multiset(vec);
    assert s in multiset(RemoveFirst(vec, t));
  }

  lemma StepKeepsAlive(h: Hasher, m: Meta, answers: Answers, st: Store, op: Request, s: SlotId)
    requires m.Valid() && WellFiled(h, m, st.rows) && Enabled(st.rows, op)
    requires s in st.hub.onInsert && op != DisconnectFrom(s)
    requires Alive(Step(h, m, answers, st, op).hub.calls, answers, s)
    ensures s in Step(h, m, answers, st, op).hub.onInsert
  {
    match op
    case Connect(_, _) =>
    case ConnectOnlyTo(_) =>
    case DisconnectFrom(t) => RemoveOther(st.hub.onInsert, t, s);
    case _ => ForwardAllKeepsAlive(st.hub, EventsOf(h, m, st.rows, op), answers, s);
  }

  lemma StepCalls(h: Hasher, m: Meta, answers: Answers, st: Store, op: Request)
    requires m.Valid() && WellFiled(h, m, st.rows) && Enabled(st.rows, op)
    ensures st.hub.calls <= Step(h, m, answers, st, op).hub.calls
  {
    match op
    case Connect(_, _) =>
    case ConnectOnlyTo(_) =>
    case DisconnectFrom(_) =>
    case _ => ForwardAllCalls(st.hub, EventsOf(h, m, st.rows, op), answers);
  }

  lemma {:induction false} RunCalls(h: Hasher, m: Meta, answers: Answers, states: seq<Store>, ops: seq<Request>,
                                    n: nat, k: nat)
    requires m.Valid() && Run(h, m, answers, states, ops) && n <= k <= |ops|
    ensures states[n].hub.calls <= states[k].hub.calls
    decreases k - n
  {
    if n < k {
      assert Taken(h, m, answers, states[n], ops[n], states[n + 1]);
      StepCalls(h, m, answers, states[n], ops[n]);
      RunCalls(h, m, answers, states, ops, n + 1, k);
    }
  }

  /** A slot that is listed without a break since it connected for the first time holds
      exactly the table's data, whatever it answered. */
  lemma {:induction false} ListedAgrees(h: Hasher, m: Meta, answers: Answers, states: seq<Store>, ops: seq<Request>,
                                        at: nat, n: nat, s: SlotId)
    requires m.Valid() && Run(h, m, answers, states, ops)
    requires at < n <= |ops| && ops[at].Connect? && ops[at].slot == s
    requires forall i :: 0 <= i < |states[at].hub.calls| ==> states[at].hub.calls[i].slot != s
    requires forall i :: at < i <= n ==> s in states[i].hub.onInsert
    ensures Mirrors(h, states[n], s)
    decreases n
  {
    var p := n - 1;
    assert Taken(h, m, answers, states[p], ops[p], states[n]);
    if p == at {
      Untouched(h, states[at].hub.calls, s);
      ConnectMirrors(h, m, answers, states[at], s, ops[at].order);
    } else {
      ListedAgrees(h, m, answers, states, ops, at, p, s);
      StepMirrors(h, m, answers, states[p], ops[p], s);
    }
  }

  /** A slot that keeps answering true, and is not disconnected, stays listed. */
  lemma {:induction false} StaysListed(h: Hasher, m: Meta, answers: Answers, states: seq<Store>, ops: seq<Request>,
                                       at: nat, n: nat, s: SlotId)
    requires m.Valid() && Run(h, m, answers, states, ops)
    requires at < n <= |ops| && ops[at].Connect? && ops[at].slot == s
    requires forall i :: at < i < n ==> ops[i] != DisconnectFrom(s)
    requires Alive(states[n].hub.calls, answers, s)
    ensures forall i :: at < i <= n ==> s in states[i].hub.onInsert
    decreases n
  {
    var p := n - 1;
    assert Taken(h, m, answers, states[p], ops[p], states[n]);
    if p > at {
      RunCalls(h, m, answers, states, ops, p, n);
      assert forall i :: 0 <= i < |states[p].hub.calls| ==> states[p].hub.calls[i] == states[n].hub.calls[i];
      StaysListed(h, m, answers, states, ops, at, p, s);
      StepKeepsAlive(h, m, answers, states[p], ops[p], s);
    }
  }

  /** The store's central promise. A slot that connects for the first time at any moment
      of any run, stays alive and is not disconnected, holds exactly the table's data
      after every later operation, built from its events alone. */
  lemma ReplicaAgrees(h: Hasher, m: Meta, answers: Answers, states: seq<Store>, ops: seq<Request>,
                      at: nat, n: nat, s: SlotId)
    requires m.Valid() && Run(h, m, answers, states, ops)
    requires at < n <= |ops| && ops[at].Connect? && ops[at].slot == s
    requires forall i :: 0 <= i < |states[at].hub.calls| ==> states[at].hub.calls[i].slot != s
    requires forall i :: at < i < n ==> ops[i] != DisconnectFrom(s)
    requires Alive(states[n].hub.calls, answers, s)
    ensures s in states[n].hub.onInsert
    ensures Mirrors(h, states[n], s)
  {
    StaysListed(h, m, answers, states, ops, at, n, s);
    ListedAgrees(h, m, answers, states, ops, at, n, s);
  }

  lemma {:induction false} Untouched(h: Hasher, calls: seq<Call>, s: SlotId)
    requires forall i :: 0 <= i < |calls| ==> calls[i].slot != s
    ensures Replica(h, calls, s) == map[]
    decreases |calls|
  {
    if calls != [] {
      Untouched(h, calls[..|calls| - 1], s);
    }
  }
}
