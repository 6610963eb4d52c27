/** Generations as a subscriber sees them: which operations leave its record one behind. */
module StoreGens {
  import opened Dom
  import opened Schema
  import opened StoreModel
  import opened StoreReplicas

  type Gens = map<KeyId, Gen>

  /** What a subscriber that keeps the generation of each key makes of an event. */
  function Note(h: Hasher, g: Gens, e: Event): Gens {
    match e
    case Inserted(k, _, gen) => g[h.Id(k) := gen]
    case Modified(k, _, _, _, gen) => if h.Id(k) in g then g[h.Id(k) := gen] else g
    case Removed(k, _) => g - {h.Id(k)}
    case Cleared => map[]
    case Trx(_) => g
  }

  function NoteAll(h: Hasher, g: Gens, events: seq<Event>): Gens
    decreases |events|
  {
    if events == [] then g else NoteAll(h, Note(h, g, events[0]), events[1..])
  }

  /** The generations that slot `s` has on record after the calls made so far. */
  function Noted(h: Hasher, calls: seq<Call>, s: SlotId): Gens
    decreases |calls|
  {
    if calls == [] then map[]
    else
      var g := Noted(h, calls[..|calls| - 1], s);
      if calls[|calls| - 1].slot == s then Note(h, g, calls[|calls| - 1].event) else g
  }

  lemma NotedStep(h: Hasher, calls: seq<Call>, c: Call, s: SlotId)
    ensures Noted(h, calls + [c], s) == if c.slot == s then Note(h, Noted(h, calls, s), c.event) else Noted(h, calls, s)
  {
    assert (calls + [c])[..|calls|] == calls;
  }

  lemma {:induction false} NotifyNotes(h: Hasher, calls: seq<Call>, slots: seq<SlotId>, e: Event, s: SlotId)
    ensures Noted(h, calls + Notify(slots, e), s) ==
      if s in slots then Note(h, Noted(h, calls, s), e) else Noted(h, calls, s)
    decreases |slots|
  {
    if slots == [] {
      assert calls + Notify(slots, e) == calls;
    } else {
      var n := |slots| - 1;
      assert calls + Notify(slots, e) == (calls + Notify(slots[..n], e)) + [Call(slots[n], e)];
      assert slots == slots[..n] + [slots[n]];
      NotifyNotes(h, calls, slots[..n], e, s);
      NotedStep(h, calls + Notify(slots[..n], e), Call(slots[n], e), s);
    }
  }

  lemma {:induction false} PublishNotes(h: Hasher, hub: Hub, events: seq<Event>, answers: Answers, s: SlotId)
    requires s in ForwardAll(hub, events, answers).onInsert
    ensures Noted(h, ForwardAll(hub, events, answers).calls, s) == NoteAll(h, Noted(h, hub.calls, s), events)
    decreases |events|
  {
    if events != [] {
      var next := Forward(hub, events[0], answers);
      StillListed(next, events[1..], answers, s);
      ForwardOnlyDrops(hub, events[0], answers, s);
      NotifyNotes(h, hub.calls, hub.onInsert, events[0], s);
      PublishNotes(h, next, events[1..], answers, s);
    }
  }

  lemma {:induction false} RowCallsNote(h: Hasher, m: Meta, calls: seq<Call>, rows: Rows, order: seq<KeyId>,
                                        s: SlotId, t: SlotId, id: KeyId)
    requires m.Valid() && WellFiled(h, m, rows)
    requires forall i :: 0 <= i < |order| ==> order[i] in rows
    ensures var was, now := Noted(h, calls, s), Noted(h, calls + RowCalls(t, rows, order), s);
      if s == t && id in order then id in now && now[id] == rows[id].gen
      else (id in now <==> id in was) && (id in was ==> now[id] == was[id])
    decreases |order|
  {
    if order == [] {
      assert calls + RowCalls(t, rows, order) == calls;
    } else {
      var n := |order| - 1;
      var r := rows[order[n]];
      var before, last := calls + RowCalls(t, rows, order[..n]), Charging(t, Inserted(r.key, r.data, r.gen));
      RowCallsNote(h, m, calls, rows, order[..n], s, t, id);
      NotedStep(h, before, last, s);
      assert calls + RowCalls(t, rows, order) == before + [last];
      assert order == order[..n] + [order[n]];
    }
  }

  lemma ChargeNotes(h: Hasher, m: Meta, calls: seq<Call>, rows: Rows, order: seq<KeyId>, s: SlotId, t: SlotId,
                    id: KeyId)
    requires m.Valid() && WellFiled(h, m, rows) && Enumerates(order, rows.Keys)
    ensures var was, now := Noted(h, calls, s), Noted(h, calls + ChargeCalls(t, rows, order), s);
      if s == t && id in rows then id in now && now[id] == rows[id].gen
      else (id in now <==> id in was) && (id in was ==> now[id] == was[id])
  {
    var c0 := calls + [Charging(t, Trx(true))];
    assert calls + ChargeCalls(t, rows, order) == (c0 + RowCalls(t, rows, order)) + [Charging(t, Trx(false))];
    NotedStep(h, calls, Charging(t, Trx(true)), s);
    RowCallsNote(h, m, c0, rows, order, s, t, id);
    NotedStep(h, c0 + RowCalls(t, rows, order), Charging(t, Trx(false)), s);
    assert id in order <==> id in rows.Keys;
  }

  lemma {:induction false} NothingNoted(h: Hasher, calls: seq<Call>, s: SlotId)
    requires forall i :: 0 <= i < |calls| ==> calls[i].slot != s
    ensures Noted(h, calls, s) == map[]
    decreases |calls|
  {
    if calls != [] {
      NothingNoted(h, calls[..|calls| - 1], s);
    }
  }

  // ---- one key ----------------------------------------------------------

  /** The record knows the row exactly while it exists, and has its generation, or the one before it. */
  predicate Tracks(g: Gens, rows: Rows, id: KeyId, behind: bool) {
    && (id in g <==> id in rows)
    && (id in rows ==> rows[id].gen == if behind then NextGen(g[id]) else g[id])
  }

  lemma {:induction false} UpdateTracks(h: Hasher, g: Gens, rows: Rows, k: seq<Obj>, data: seq<Obj>, idx: nat,
                                        behind: bool)
    requires h.Id(k) in rows && |rows[h.Id(k)].data| == |data| && idx <= |data|
    requires Tracks(g, rows, h.Id(k), behind)
    ensures var evs := UpdateEvents(h, k, rows[h.Id(k)].data, rows[h.Id(k)].gen, data, idx);
      Tracks(NoteAll(h, g, evs), CommitAll(h, rows, evs), h.Id(k), behind && evs == [])
    decreases |data| - idx
  {
    var was := rows[h.Id(k)];
    if idx < |data| {
      if h.Same(was.data[idx], data[idx]) {
        UpdateTracks(h, g, rows, k, data, idx + 1, behind);
      } else {
        var e := Modified(k, idx, data[idx], was.data[idx := data[idx]], NextGen(was.gen));
        UpdateTracks(h, Note(h, g, e), Commit(h, rows, e), k, data, idx + 1, false);
      }
    }
  }

  lemma {:induction false} ModifyTracks(h: Hasher, g: Gens, rows: Rows, k: seq<Obj>, attrs: seq<(nat, Obj)>,
                                        behind: bool)
    requires h.Id(k) in rows && Tracks(g, rows, h.Id(k), behind)
    ensures var evs := ModifyEvents(h, k, rows[h.Id(k)].data, rows[h.Id(k)].gen, attrs);
      Tracks(NoteAll(h, g, evs), CommitAll(h, rows, evs), h.Id(k), behind || evs != [])
    decreases |attrs|
  {
    var was := rows[h.Id(k)];
    if attrs != [] {
      var (idx, v) := attrs[0];
      if idx < |was.data| && !h.Same(was.data[idx], v) {
        var e := Modified(k, idx, v, was.data, was.gen);
        ModifyTracks(h, Note(h, g, e), Commit(h, rows, e), k, attrs[1..], true);
        var evs := ModifyEvents(h, k, was.data[idx := v], NextGen(was.gen), attrs[1..]);
        assert ([e] + evs)[1..] == evs;
      } else {
        ModifyTracks(h, g, rows, k, attrs[1..], behind);
      }
    }
  }

  /** Events about other keys, and removals of any key, leave it as it is. */
  predicate Neutral(h: Hasher, e: Event, id: KeyId) {
    e.Removed? || e.Cleared? || (e.Modified? && h.Id(e.key) != id) || (e.Inserted? && h.Id(e.key) != id)
  }

  lemma {:induction false} NeutralTracks(h: Hasher, g: Gens, rows: Rows, events: seq<Event>, id: KeyId, behind: bool)
    requires Tracks(g, rows, id, behind) && forall i :: 0 <= i < |events| ==> Neutral(h, events[i], id)
    ensures Tracks(NoteAll(h, g, events), CommitAll(h, rows, events), id, behind)
    decreases |events|
  {
    if events != [] {
      assert Neutral(h, events[0], id);
      NeutralTracks(h, Note(h, g, events[0]), Commit(h, rows, events[0]), events[1..], id, behind);
    }
  }

  // ---- one operation ----------------------------------------------------

  /** From one state to the next, the operation published a change of the row with its new
      generation, or sent all rows again. */
  predicate Refreshes(h: Hasher, st: Store, op: Request, st': Store, s: SlotId, id: KeyId) {
    || (op.Connect? && op.slot == s)
    || ((op.Insert? || op.Merge?) && h.Id(op.key) == id && st'.log != st.log)
  }

  /** The operation published a change of the row with the generation before it. */
  predicate Outdates(h: Hasher, st: Store, op: Request, st': Store, id: KeyId) {
    (op.Modify? || op.ModifyAll? || op.Compute?) && h.Id(op.key) == id && st'.log != st.log
  }

  lemma {:induction false} UpdateKey(h: Hasher, k: seq<Obj>, cur: seq<Obj>, gen: Gen, data: seq<Obj>, idx: nat)
    requires |cur| == |data| && idx <= |data|
    ensures forall e :: e in UpdateEvents(h, k, cur, gen, data, idx) ==> e.Modified? && e.key == k
    decreases |data| - idx
  {
    if idx < |data| {
      UpdateKey(h, k, cur[idx := data[idx]], NextGen(gen), data, idx + 1);
      UpdateKey(h, k, cur, gen, data, idx + 1);
    }
  }

  lemma {:induction false} ModifyKey(h: Hasher, k: seq<Obj>, cur: seq<Obj>, gen: Gen, attrs: seq<(nat, Obj)>)
    ensures forall e :: e in ModifyEvents(h, k, cur, gen, attrs) ==> e.Modified? && e.key == k
    decreases |attrs|
  {
    if attrs != [] {
      var (idx, v) := attrs[0];
      if idx < |cur| {
        ModifyKey(h, k, cur[idx := v], NextGen(gen), attrs[1..]);
      }
      ModifyKey(h, k, cur, gen, attrs[1..]);
    }
  }

  lemma MergeTracks(h: Hasher, m: Meta, g: Gens, rows: Rows, op: Request, id: KeyId, behind: bool)
    requires m.Valid() && WellFiled(h, m, rows) && (op.Insert? || op.Merge?) && Tracks(g, rows, id, behind)
    ensures var evs := EventsOf(h, m, rows, op);
      Tracks(NoteAll(h, g, evs), CommitAll(h, rows, evs), id, behind && (evs == [] || h.Id(op.key) != id))
  {
    var evs := EventsOf(h, m, rows, op);
    var was := h.Id(op.key);
    if op.Merge? && was in rows && m.CheckIntegrity(op.key, op.data) {
      UpdateKey(h, op.key, rows[was].data, rows[was].gen, op.data, 0);
      if was == id {
        UpdateTracks(h, g, rows, op.key, op.data, 0, behind);
      } else {
        NeutralTracks(h, g, rows, evs, id, behind);
      }
    } else if evs != [] {
      var e := Inserted(op.key, op.data, op.gen);
      assert evs == [e] && evs[1..] == [];
      assert NoteAll(h, g, evs) == NoteAll(h, Note(h, g, e), []);
      assert CommitAll(h, rows, evs) == CommitAll(h, Commit(h, rows, e), []);
    }
  }

  lemma ChangeTracks(h: Hasher, m: Meta, g: Gens, rows: Rows, op: Request, id: KeyId, behind: bool)
    requires m.Valid() && WellFiled(h, m, rows) && (op.Modify? || op.ModifyAll? || op.Compute?)
    requires Tracks(g, rows, id, behind)
    ensures var evs := EventsOf(h, m, rows, op);
      Tracks(NoteAll(h, g, evs), CommitAll(h, rows, evs), id, behind || (evs != [] && h.Id(op.key) == id))
  {
    var evs, was := EventsOf(h, m, rows, op), h.Id(op.key);
    if evs != [] {
      var r := rows[was];
      var attrs := match op
        case ModifyAll(_, attrs) => attrs
        case Modify(_, idx, v) => [(idx, v)]
        case Compute(_, idx, fn) => [(idx, fn(r.data[idx]))];
      assert evs == ModifyEvents(h, op.key, r.data, r.gen, attrs);
      ModifyKey(h, op.key, r.data, r.gen, attrs);
      if was == id {
        ModifyTracks(h, g, rows, op.key, attrs, behind);
      } else {
        NeutralTracks(h, g, rows, evs, id, behind);
      }
    }
  }

  /** Any operation: a refresh sets the record right, an outdating change leaves it one behind,
      everything else leaves it as it is. */
  lemma StepTracks(h: Hasher, m: Meta, answers: Answers, st: Store, op: Request, st': Store, s: SlotId, id: KeyId,
                   behind: bool)
    requires m.Valid() && Taken(h, m, answers, st, op, st') && s in st'.hub.onInsert
    requires Tracks(Noted(h, st.hub.calls, s), st.rows, id, behind)
    ensures Tracks(Noted(h, st'.hub.calls, s), st'.rows, id,
                   !Refreshes(h, st, op, st', s, id) && (behind || Outdates(h, st, op, st', id)))
  {
    match op
    case Connect(t, order) => ChargeNotes(h, m, st.hub.calls, st.rows, order, s, t, id);
    case ConnectOnlyTo(_) =>
    case DisconnectFrom(_) =>
    case _ =>
      var evs := EventsOf(h, m, st.rows, op);
      assert st'.log == st.log <==> evs == [];
      PublishNotes(h, st.hub, evs, answers, s);
      RowsTrack(h, m, Noted(h, st.hub.calls, s), st.rows, op, id, behind);
  }

  lemma RowsTrack(h: Hasher, m: Meta, g: Gens, rows: Rows, op: Request, id: KeyId, behind: bool)
    requires m.Valid() && WellFiled(h, m, rows) && Enabled(rows, op) && Tracks(g, rows, id, behind)
    requires !op.Connect? && !op.ConnectOnlyTo? && !op.DisconnectFrom?
    ensures var evs := EventsOf(h, m, rows, op);
      var now := if (op.Insert? || op.Merge?) && h.Id(op.key) == id && evs != [] then false
        else if (op.Modify? || op.ModifyAll? || op.Compute?) && h.Id(op.key) == id && evs != [] then true
        else behind;
      Tracks(NoteAll(h, g, evs), CommitAll(h, rows, evs), id, now)
  {
    if op.Insert? || op.Merge? {
      MergeTracks(h, m, g, rows, op, id, behind);
    } else if op.Modify? || op.ModifyAll? || op.Compute? {
      ChangeTracks(h, m, g, rows, op, id, behind);
    } else {
      EraseNeutral(h, m, rows, op, id);
      NeutralTracks(h, g, rows, EventsOf(h, m, rows, op), id, behind);
    }
  }

  lemma EraseNeutral(h: Hasher, m: Meta, rows: Rows, op: Request, id: KeyId)
    requires m.Valid() && WellFiled(h, m, rows) && Enabled(rows, op) && (op.Erase? || op.EraseIf? || op.Clear?)
    ensures forall e :: e in EventsOf(h, m, rows, op) ==> Neutral(h, e, id)
  {
    if op.EraseIf? {
      OnlyRemoved(rows, op.pred, op.order);
    }
  }

  // ---- runs -------------------------------------------------------------

  /** The i-th operation was a modify or compute that changed the row, which was not refreshed until the n-th. */
  predicate OutdatedBy(h: Hasher, states: seq<Store>, ops: seq<Request>, i: nat, n: nat, s: SlotId, id: KeyId)
    requires |states| == |ops| + 1 && i < n <= |ops|
  {
    && Outdates(h, states[i], ops[i], states[i + 1], id)
    && forall j :: i < j < n ==> !Refreshes(h, states[j], ops[j], states[j + 1], s, id)
  }

  ghost predicate Outdated(h: Hasher, states: seq<Store>, ops: seq<Request>, at: nat, n: nat, s: SlotId, id: KeyId)
    requires |states| == |ops| + 1 && n <= |ops|
  {
    exists i :: at < i < n && OutdatedBy(h, states, ops, i, n, s, id)
  }

  lemma OutdatedMore(h: Hasher, states: seq<Store>, ops: seq<Request>, at: nat, n: nat, s: SlotId, id: KeyId)
    requires |states| == |ops| + 1 && at < n < |ops|
    ensures Outdated(h, states, ops, at, n + 1, s, id) <==>
      !Refreshes(h, states[n], ops[n], states[n + 1], s, id)
      && (Outdated(h, states, ops, at, n, s, id) || Outdates(h, states[n], ops[n], states[n + 1], id))
  {
    assert OutdatedBy(h, states, ops, n, n + 1, s, id) <==> Outdates(h, states[n], ops[n], states[n + 1], id);
    if Outdated(h, states, ops, at, n + 1, s, id) {
      var i :| at < i < n + 1 && OutdatedBy(h, states, ops, i, n + 1, s, id);
      assert i < n ==> OutdatedBy(h, states, ops, i, n, s, id);
    }
    if Outdated(h, states, ops, at, n, s, id) && !Refreshes(h, states[n], ops[n], states[n + 1], s, id) {
      var i :| at < i < n && OutdatedBy(h, states, ops, i, n, s, id);
      assert OutdatedBy(h, states, ops, i, n + 1, s, id);
    }
  }

  lemma {:induction false} RunTracks(h: Hasher, m: Meta, answers: Answers, states: seq<Store>, ops: seq<Request>,
                                     at: nat, n: nat, s: SlotId, id: KeyId)
    requires m.Valid() && Run(h, m, answers, states, ops)
    requires at < n <= |ops| && ops[at].Connect? && ops[at].slot == s
    requires forall i :: 0 <= i < |states[at].hub.calls| ==> states[at].hub.calls[i].slot != s
    requires forall i :: at < i <= n ==> s in states[i].hub.onInsert
    ensures Tracks(Noted(h, states[n].hub.calls, s), states[n].rows, id, Outdated(h, states, ops, at, n, s, id))
    decreases n
  {
    var p := n - 1;
    assert Taken(h, m, answers, states[p], ops[p], states[n]);
    if p == at {
      ConnectTracks(h, m, answers, states[at], ops[at], states[n], s, id);
      assert !Outdated(h, states, ops, at, n, s, id);
    } else {
      var behind := Outdated(h, states, ops, at, p, s, id);
      RunTracks(h, m, answers, states, ops, at, p, s, id);
      OutdatedMore(h, states, ops, at, p, s, id);
      StepTracks(h, m, answers, states[p], ops[p], states[n], s, id, behind);
    }
  }

  lemma ConnectTracks(h: Hasher, m: Meta, answers: Answers, st: Store, op: Request, st': Store, s: SlotId, id: KeyId)
    requires m.Valid() && Taken(h, m, answers, st, op, st') && op.Connect? && op.slot == s
    requires forall i :: 0 <= i < |st.hub.calls| ==> st.hub.calls[i].slot != s
    ensures Tracks(Noted(h, st'.hub.calls, s), st'.rows, id, false)
  {
    NothingNoted(h, st.hub.calls, s);
    ChargeNotes(h, m, st.hub.calls, st.rows, op.order, s, s, id);
  }

  /** What a listed slot records of a row's generation from the events alone is right if and only
      if no modify or compute has changed the row since it was last inserted, updated or sent;
      otherwise it is exactly one behind. */
  lemma GenerationsExactly(h: Hasher, m: Meta, answers: Answers, states: seq<Store>, ops: seq<Request>,
                           at: nat, n: nat, s: SlotId, id: KeyId)
    requires m.Valid() && Run(h, m, answers, states, ops)
    requires at < n <= |ops| && ops[at].Connect? && ops[at].slot == s
    requires forall i :: 0 <= i < |states[at].hub.calls| ==> states[at].hub.calls[i].slot != s
    requires forall i :: at < i <= n ==> s in states[i].hub.onInsert
    requires id in states[n].rows
    ensures var g := Noted(h, states[n].hub.calls, s);
      && id in g
      && (g[id] == states[n].rows[id].gen <==> !Outdated(h, states, ops, at, n, s, id))
      && (g[id] != states[n].rows[id].gen ==> NextGen(g[id]) == states[n].rows[id].gen)
  {
    RunTracks(h, m, answers, states, ops, at, n, s, id);
  }
}
