/** What each operation of the table does to rows, log and subscribers, said without the
    functions that model it. */
module StoreLaws {
  import opened Dom
  import opened Schema
  import opened StoreModel
  import opened StoreReplicas
  import opened StoreRows

  // ---- what a published event does to the subscribers -------------------

  /** Every listed slot got this event once, in list order, and kept its places as it answered. */
  ghost predicate SentTo(hub: Hub, e: Event, answers: Answers, hub': Hub) {
    var n := |hub.calls|;
    && |hub'.calls| == n + |hub.onInsert| && hub'.calls[..n] == hub.calls
    && (forall i :: 0 <= i < |hub.onInsert| ==> hub'.calls[n + i] == Call(hub.onInsert[i], e))
    && multiset(hub'.onInsert) == multiset(Answering(hub.onInsert, n, answers, true))
    && hub'.onModify == hub.onModify && hub'.onRemove == hub.onRemove && hub'.onClear == hub.onClear
  }

  ghost predicate SentAll(hub: Hub, events: seq<Event>, answers: Answers, hub': Hub)
    decreases |events|
  {
    if events == [] then hub' == hub
    else exists mid :: SentTo(hub, events[0], answers, mid) && SentAll(mid, events[1..], answers, hub')
  }

  lemma {:induction false} PublishSends(hub: Hub, events: seq<Event>, answers: Answers)
    ensures SentAll(hub, events, answers, ForwardAll(hub, events, answers))
    decreases |events|
  {
    if events != [] {
      var mid := Forward(hub, events[0], answers);
      ForwardLaw(hub, events[0], answers);
      assert SentTo(hub, events[0], answers, mid);
      PublishSends(mid, events[1..], answers);
    }
  }

  /** The state after exactly these events were published. */
  ghost predicate Published(st: Store, events: seq<Event>, answers: Answers, st': Store) {
    st'.log == st.log + events && SentAll(st.hub, events, answers, st'.hub)
  }

  lemma TakenPublishes(h: Hasher, m: Meta, answers: Answers, st: Store, op: Request, st': Store)
    requires m.Valid() && Taken(h, m, answers, st, op, st')
    requires !op.Connect? && !op.ConnectOnlyTo? && !op.DisconnectFrom?
    ensures Published(st, EventsOf(h, m, st.rows, op), answers, st')
    ensures st'.rows == CommitAll(h, st.rows, EventsOf(h, m, st.rows, op))
  {
    PublishSends(st.hub, EventsOf(h, m, st.rows, op), answers);
  }

  /** Nothing happened at all. */
  lemma NothingPublished(h: Hasher, m: Meta, answers: Answers, st: Store, op: Request, st': Store)
    requires m.Valid() && Taken(h, m, answers, st, op, st')
    requires !op.Connect? && !op.ConnectOnlyTo? && !op.DisconnectFrom? && EventsOf(h, m, st.rows, op) == []
    ensures st' == st
  {
    assert st.log + [] == st.log;
  }

  // ---- rows -------------------------------------------------------------

  /** insert adds a well-sized row under a new key and publishes it, and does nothing else. */
  lemma InsertLaw(h: Hasher, m: Meta, answers: Answers, st: Store, k: seq<Obj>, d: seq<Obj>, g: Gen, st': Store)
    requires m.Valid() && Taken(h, m, answers, st, Insert(k, d, g), st')
    ensures if |k| == m.pk && |d| == |m.columns| - m.pk && h.Id(k) !in st.rows
      then st'.rows == st.rows[h.Id(k) := Row(k, d, g)] && Published(st, [Inserted(k, d, g)], answers, st')
      else st' == st
  {
    var op := Insert(k, d, g);
    if EventsOf(h, m, st.rows, op) == [] {
      NothingPublished(h, m, answers, st, op, st');
    } else {
      TakenPublishes(h, m, answers, st, op, st');
      CommitLast(h, st.rows, Inserted(k, d, g));
    }
  }

  /** merge adds a row under a new key, or makes an existing row equal to the data and publishes
      one event for each column that differs, in rising order. */
  lemma MergeTaken(h: Hasher, m: Meta, answers: Answers, st: Store, k: seq<Obj>, d: seq<Obj>, g: Gen, st': Store)
    returns (evs: seq<Event>)
    requires m.Valid() && Taken(h, m, answers, st, Merge(k, d, g), st')
    ensures |k| != m.pk || |d| != |m.columns| - m.pk ==> st' == st
    ensures |k| == m.pk && |d| == |m.columns| - m.pk && h.Id(k) !in st.rows ==>
      st'.rows == st.rows[h.Id(k) := Row(k, d, g)] && Published(st, [Inserted(k, d, g)], answers, st')
    ensures |k| == m.pk && |d| == |m.columns| - m.pk && h.Id(k) in st.rows ==>
      var id := h.Id(k); var was := st.rows[id];
      && id in st'.rows && st'.rows - {id} == st.rows - {id}
      && var now := st'.rows[id];
      && now.key == was.key && |now.data| == |was.data| == |d| && now.gen == GenAfter(was.gen, |evs|)
      && (forall i :: 0 <= i < |d| ==> now.data[i] == if h.Same(was.data[i], d[i]) then was.data[i] else d[i])
      && Reports(h, evs, k, was.data, was.gen, d, 0) && Published(st, evs, answers, st')
      && forall e :: e in evs ==> e.Modified? && CarriesNew(h, e, was.data, d, 0)
  {
    var op := Merge(k, d, g);
    evs := EventsOf(h, m, st.rows, op);
    if evs == [] {
      NothingPublished(h, m, answers, st, op, st');
    }
    TakenPublishes(h, m, answers, st, op, st');
    if m.CheckIntegrity(k, d) {
      MergeLaw(h, m, st.rows, k, d, g);
      if h.Id(k) in st.rows {
        UpdateLaw(h, st.rows, k, d, 0);
        UpdateCarries(h, k, st.rows[h.Id(k)].data, st.rows[h.Id(k)].gen, d, 0);
      } else {
        CommitLast(h, st.rows, Inserted(k, d, g));
      }
    }
  }

  /** The event carries the row as it was after this change: the columns up to it are done. */
  predicate CarriesNew(h: Hasher, e: Event, cur: seq<Obj>, data: seq<Obj>, idx: nat)
    requires |cur| == |data| && e.Modified?
  {
    |e.data| == |cur| && forall c :: 0 <= c < |cur| ==>
      e.data[c] == if idx <= c <= e.idx then Taken1(h, cur[c], data[c]) else cur[c]
  }

  lemma {:induction false} UpdateCarries(h: Hasher, k: seq<Obj>, cur: seq<Obj>, gen: Gen, data: seq<Obj>, idx: nat)
    requires |cur| == |data| && idx <= |data|
    ensures forall e :: e in UpdateEvents(h, k, cur, gen, data, idx) ==>
      e.Modified? && idx <= e.idx && CarriesNew(h, e, cur, data, idx)
    decreases |data| - idx
  {
    if idx < |data| {
      if h.Same(cur[idx], data[idx]) {
        UpdateCarries(h, k, cur, gen, data, idx + 1);
      } else {
        var next := cur[idx := data[idx]];
        UpdateCarries(h, k, next, NextGen(gen), data, idx + 1);
        forall e | e in UpdateEvents(h, k, next, NextGen(gen), data, idx + 1) ensures CarriesNew(h, e, cur, data, idx) {
        }
      }
    }
  }

  /** One column is set, and the change is published with the data and generation before it. */
  ghost predicate ColumnChanged(h: Hasher, answers: Answers, st: Store, k: seq<Obj>, idx: nat, v: Obj, st': Store)
    requires h.Id(k) in st.rows && idx < |st.rows[h.Id(k)].data|
  {
    var was := st.rows[h.Id(k)];
    && st'.rows == st.rows[h.Id(k) := Row(was.key, was.data[idx := v], (was.gen + 1) % U64)]
    && Published(st, [Modified(k, idx, v, was.data, was.gen)], answers, st')
  }

  lemma OneModified(h: Hasher, m: Meta, answers: Answers, st: Store, op: Request, k: seq<Obj>, idx: nat, v: Obj,
                    st': Store)
    requires m.Valid() && Taken(h, m, answers, st, op, st') && (op.Modify? || op.Compute?)
    requires h.Id(k) in st.rows && idx < |st.rows[h.Id(k)].data|
    requires EventsOf(h, m, st.rows, op) == ModifyEvents(h, k, st.rows[h.Id(k)].data, st.rows[h.Id(k)].gen, [(idx, v)])
    ensures if h.Same(st.rows[h.Id(k)].data[idx], v) then st' == st else ColumnChanged(h, answers, st, k, idx, v, st')
  {
    var was := st.rows[h.Id(k)];
    var attrs := [(idx, v)];
    assert attrs[1..] == [];
    if h.Same(was.data[idx], v) {
      NothingPublished(h, m, answers, st, op, st');
    } else {
      var e := Modified(k, idx, v, was.data, was.gen);
      assert EventsOf(h, m, st.rows, op) == [e];
      TakenPublishes(h, m, answers, st, op, st');
      CommitLast(h, st.rows, e);
    }
  }

  /** modify of one column: the column takes the value unless it equals it already. */
  lemma ModifyTaken(h: Hasher, m: Meta, answers: Answers, st: Store, k: seq<Obj>, idx: nat, v: Obj, st': Store)
    requires m.Valid() && Taken(h, m, answers, st, Modify(k, idx, v), st')
    ensures if h.Id(k) in st.rows && idx < |st.rows[h.Id(k)].data| && !h.Same(st.rows[h.Id(k)].data[idx], v)
      then ColumnChanged(h, answers, st, k, idx, v, st')
      else st' == st
  {
    var op := Modify(k, idx, v);
    if h.Id(k) in st.rows && idx < |st.rows[h.Id(k)].data| {
      OneModified(h, m, answers, st, op, k, idx, v, st');
    } else {
      var attrs := [(idx, v)];
      assert attrs[1..] == [];
      NothingPublished(h, m, answers, st, op, st');
    }
  }

  /** compute: the column takes the function's value of it unless that equals it already. */
  lemma ComputeTaken(h: Hasher, m: Meta, answers: Answers, st: Store, k: seq<Obj>, idx: nat, fn: Obj -> Obj, st': Store)
    requires m.Valid() && Taken(h, m, answers, st, Compute(k, idx, fn), st')
    ensures if h.Id(k) in st.rows && idx < |st.rows[h.Id(k)].data|
        && !h.Same(st.rows[h.Id(k)].data[idx], fn(st.rows[h.Id(k)].data[idx]))
      then ColumnChanged(h, answers, st, k, idx, fn(st.rows[h.Id(k)].data[idx]), st')
      else st' == st
  {
    var op := Compute(k, idx, fn);
    if h.Id(k) in st.rows && idx < |st.rows[h.Id(k)].data| {
      OneModified(h, m, answers, st, op, k, idx, fn(st.rows[h.Id(k)].data[idx]), st');
    } else {
      NothingPublished(h, m, answers, st, op, st');
    }
  }

  // ---- modify of several columns ----------------------------------------

  /** The attribute changes a column of this row. */
  predicate Changes(h: Hasher, cur: seq<Obj>, a: (nat, Obj)) { a.0 < |cur| && !h.Same(cur[a.0], a.1) }

  /** One event for each attribute that changes a column, in order, each carrying the
      generation before its change. */
  ghost predicate ModifyReports(h: Hasher, evs: seq<Event>, k: seq<Obj>, cur: seq<Obj>, gen: Gen,
                                attrs: seq<(nat, Obj)>) {
    EachModifies(evs, k, gen) && Sourced(h, evs, cur, attrs) && InOrder(evs) && Complete(h, evs, cur, attrs)
  }

  predicate EachModifies(evs: seq<Event>, k: seq<Obj>, gen: Gen) {
    forall j :: 0 <= j < |evs| ==> evs[j].Modified? && evs[j].key == k && evs[j].gen == GenAfter(gen, j)
  }

  ghost predicate Sourced(h: Hasher, evs: seq<Event>, cur: seq<Obj>, attrs: seq<(nat, Obj)>) {
    forall j :: 0 <= j < |evs| ==> evs[j].Modified? && FromAttr(h, cur, attrs, evs[j].idx, evs[j].value)
  }

  predicate InOrder(evs: seq<Event>) {
    forall j, l :: 0 <= j < l < |evs| ==> evs[j].Modified? && evs[l].Modified? && evs[j].idx < evs[l].idx
  }

  ghost predicate Complete(h: Hasher, evs: seq<Event>, cur: seq<Obj>, attrs: seq<(nat, Obj)>) {
    forall i :: 0 <= i < |attrs| && Changes(h, cur, attrs[i]) ==> Reported(evs, attrs[i].0)
  }

  ghost predicate FromAttr(h: Hasher, cur: seq<Obj>, attrs: seq<(nat, Obj)>, idx: nat, v: Obj) {
    exists i :: 0 <= i < |attrs| && attrs[i] == (idx, v) && Changes(h, cur, attrs[i])
  }

  lemma {:induction false} ModifyReported(h: Hasher, k: seq<Obj>, cur: seq<Obj>, gen: Gen, attrs: seq<(nat, Obj)>)
    requires Rising(attrs)
    ensures ModifyReports(h, ModifyEvents(h, k, cur, gen, attrs), k, cur, gen, attrs)
    decreases |attrs|
  {
    if attrs != [] {
      var (idx, v) := attrs[0];
      var rest := attrs[1..];
      assert forall i :: 0 <= i < |rest| ==> rest[i] == attrs[i + 1];
      if Changes(h, cur, attrs[0]) {
        ModifyReported(h, k, cur[idx := v], NextGen(gen), rest);
        ReportsFirst(h, ModifyEvents(h, k, cur[idx := v], NextGen(gen), rest), k, cur, gen, attrs);
      } else {
        ModifyReported(h, k, cur, gen, rest);
        ReportsSkip(h, ModifyEvents(h, k, cur, gen, rest), k, cur, gen, attrs);
      }
    }
  }

  lemma ReportsSkip(h: Hasher, evs: seq<Event>, k: seq<Obj>, cur: seq<Obj>, gen: Gen, attrs: seq<(nat, Obj)>)
    requires attrs != [] && !Changes(h, cur, attrs[0]) && ModifyReports(h, evs, k, cur, gen, attrs[1..])
    ensures ModifyReports(h, evs, k, cur, gen, attrs)
  {
    FromAttrMore(h, cur, attrs);
    forall i | 0 <= i < |attrs| && Changes(h, cur, attrs[i]) ensures Reported(evs, attrs[i].0) {
      assert attrs[1..][i - 1] == attrs[i];
    }
  }

  lemma FromAttrMore(h: Hasher, cur: seq<Obj>, attrs: seq<(nat, Obj)>)
    requires attrs != []
    ensures forall idx, v :: FromAttr(h, cur, attrs[1..], idx, v) ==> FromAttr(h, cur, attrs, idx, v)
  {
    forall idx: nat, v | FromAttr(h, cur, attrs[1..], idx, v) ensures FromAttr(h, cur, attrs, idx, v) {
      var i :| 0 <= i < |attrs[1..]| && attrs[1..][i] == (idx, v) && Changes(h, cur, attrs[1..][i]);
      assert attrs[i + 1] == (idx, v);
    }
  }

  lemma ReportsFirst(h: Hasher, rest: seq<Event>, k: seq<Obj>, cur: seq<Obj>, gen: Gen, attrs: seq<(nat, Obj)>)
    requires attrs != [] && Rising(attrs) && Changes(h, cur, attrs[0])
    requires ModifyReports(h, rest, k, cur[attrs[0].0 := attrs[0].1], NextGen(gen), attrs[1..])
    ensures ModifyReports(h, [Modified(k, attrs[0].0, attrs[0].1, cur, gen)] + rest, k, cur, gen, attrs)
  {
    var e := Modified(k, attrs[0].0, attrs[0].1, cur, gen);
    EachFirst(e, rest, k, gen);
    SourcedFirst(h, e, rest, cur, attrs);
    OrderFirst(h, e, rest, cur, attrs);
    ReportedFirst(h, rest, cur, attrs, [e] + rest);
  }

  lemma EachFirst(e: Event, rest: seq<Event>, k: seq<Obj>, gen: Gen)
    requires e.Modified? && e.key == k && e.gen == gen && EachModifies(rest, k, NextGen(gen))
    ensures EachModifies([e] + rest, k, gen)
  {
    var evs := [e] + rest;
    assert GenAfter(gen, 0) == gen;
    forall j | 0 <= j < |evs| ensures evs[j].Modified? && evs[j].key == k && evs[j].gen == GenAfter(gen, j) {
      if j > 0 {
        assert evs[j] == rest[j - 1];
        GenAfterNext(gen, j - 1);
      }
    }
  }

  lemma SourcedFirst(h: Hasher, e: Event, rest: seq<Event>, cur: seq<Obj>, attrs: seq<(nat, Obj)>)
    requires attrs != [] && Rising(attrs) && Changes(h, cur, attrs[0]) && e.Modified? && attrs[0] == (e.idx, e.value)
    requires Sourced(h, rest, cur[attrs[0].0 := attrs[0].1], attrs[1..])
    ensures Sourced(h, [e] + rest, cur, attrs)
  {
    var evs := [e] + rest;
    forall j | 0 <= j < |evs| ensures evs[j].Modified? && FromAttr(h, cur, attrs, evs[j].idx, evs[j].value) {
      if j > 0 {
        assert evs[j] == rest[j - 1];
        FromLaterAttr(h, cur, attrs, rest[j - 1].idx, rest[j - 1].value);
      }
    }
  }

  lemma OrderFirst(h: Hasher, e: Event, rest: seq<Event>, cur: seq<Obj>, attrs: seq<(nat, Obj)>)
    requires attrs != [] && Rising(attrs) && attrs[0].0 < |cur| && e.Modified? && e.idx == attrs[0].0 && InOrder(rest)
    requires Sourced(h, rest, cur[attrs[0].0 := attrs[0].1], attrs[1..])
    ensures InOrder([e] + rest)
  {
    forall l | 0 <= l < |rest| ensures rest[l].Modified? && e.idx < rest[l].idx {
      FromLaterAttr(h, cur, attrs, rest[l].idx, rest[l].value);
    }
  }

  /** A later attribute that changes the row after the first one changes it before too. */
  lemma FromLaterAttr(h: Hasher, cur: seq<Obj>, attrs: seq<(nat, Obj)>, idx: nat, v: Obj)
    requires attrs != [] && Rising(attrs) && attrs[0].0 < |cur|
    requires FromAttr(h, cur[attrs[0].0 := attrs[0].1], attrs[1..], idx, v)
    ensures attrs[0].0 < idx && FromAttr(h, cur, attrs, idx, v)
  {
    var next := cur[attrs[0].0 := attrs[0].1];
    var i :| 0 <= i < |attrs[1..]| && attrs[1..][i] == (idx, v) && Changes(h, next, attrs[1..][i]);
    assert attrs[i + 1] == (idx, v);
  }

  lemma ReportedFirst(h: Hasher, rest: seq<Event>, cur: seq<Obj>, attrs: seq<(nat, Obj)>, evs: seq<Event>)
    requires attrs != [] && Rising(attrs) && attrs[0].0 < |cur|
    requires evs != [] && evs[0].Modified? && evs[0].idx == attrs[0].0 && evs[1..] == rest
    requires Complete(h, rest, cur[attrs[0].0 := attrs[0].1], attrs[1..])
    ensures Complete(h, evs, cur, attrs)
  {
    forall i | 0 <= i < |attrs| && Changes(h, cur, attrs[i]) ensures Reported(evs, attrs[i].0) {
      if i == 0 {
        assert evs[0].idx == attrs[0].0;
      } else {
        assert attrs[1..][i - 1] == attrs[i];
        var j :| 0 <= j < |rest| && rest[j].Modified? && rest[j].idx == attrs[i].0;
        assert evs[j + 1] == rest[j];
      }
    }
  }

  /** The event carries the row as it was before this change: only the columns in front of it are done. */
  ghost predicate CarriesOld(h: Hasher, e: Event, cur: seq<Obj>, attrs: seq<(nat, Obj)>)
    requires e.Modified?
  {
    && |e.data| == |cur|
    && (forall j :: 0 <= j < |attrs| && attrs[j].0 < e.idx && attrs[j].0 < |cur| ==>
      e.data[attrs[j].0] == Taken1(h, cur[attrs[j].0], attrs[j].1))
    && (forall c :: 0 <= c < |cur| && (e.idx <= c || !Names(attrs, c)) ==> e.data[c] == cur[c])
  }

  lemma {:induction false} ModifyCarries(h: Hasher, k: seq<Obj>, cur: seq<Obj>, gen: Gen, attrs: seq<(nat, Obj)>)
    requires Rising(attrs)
    ensures forall e :: e in ModifyEvents(h, k, cur, gen, attrs) ==>
      e.Modified? && CarriesOld(h, e, cur, attrs) && exists j :: 0 <= j < |attrs| && attrs[j].0 == e.idx
    decreases |attrs|
  {
    if attrs != [] {
      var (idx, v) := attrs[0];
      var changed := Changes(h, cur, attrs[0]);
      var next, g := if changed then cur[idx := v] else cur, if changed then NextGen(gen) else gen;
      var rest := ModifyEvents(h, k, next, g, attrs[1..]);
      ModifyCarries(h, k, next, g, attrs[1..]);
      forall e | e in rest
        ensures CarriesOld(h, e, cur, attrs) && exists j :: 0 <= j < |attrs| && attrs[j].0 == e.idx
      {
        CarriesLater(h, e, cur, attrs);
      }
      if changed {
        assert forall e :: e in [Modified(k, idx, v, cur, gen)] + rest ==>
          e == Modified(k, idx, v, cur, gen) || e in rest;
      }
    }
  }

  lemma CarriesLater(h: Hasher, e: Event, cur: seq<Obj>, attrs: seq<(nat, Obj)>)
    requires attrs != [] && Rising(attrs) && e.Modified?
    requires var next := if Changes(h, cur, attrs[0]) then cur[attrs[0].0 := attrs[0].1] else cur;
      CarriesOld(h, e, next, attrs[1..])
    requires exists j :: 0 <= j < |attrs[1..]| && attrs[1..][j].0 == e.idx
    ensures CarriesOld(h, e, cur, attrs) && exists j :: 0 <= j < |attrs| && attrs[j].0 == e.idx
  {
    var l :| 0 <= l < |attrs[1..]| && attrs[1..][l].0 == e.idx;
    assert attrs[l + 1].0 == e.idx && attrs[0].0 < e.idx;
    assert !Names(attrs[1..], attrs[0].0);
    forall j | 0 <= j < |attrs| && attrs[j].0 < e.idx && attrs[j].0 < |cur|
      ensures e.data[attrs[j].0] == Taken1(h, cur[attrs[j].0], attrs[j].1)
    {
      if j > 0 { assert attrs[1..][j - 1] == attrs[j]; }
    }
    forall c | 0 <= c < |cur| && (e.idx <= c || !Names(attrs, c)) ensures e.data[c] == cur[c] {
      NamesTail(attrs, c);
    }
  }

  /** modify of several columns: each named column takes its value, and exactly the changes are
      published, in rising order, each with the generation before it. */
  lemma ModifyAllTaken(h: Hasher, m: Meta, answers: Answers, st: Store, k: seq<Obj>, attrs: seq<(nat, Obj)>, st': Store)
    returns (evs: seq<Event>)
    requires m.Valid() && Taken(h, m, answers, st, ModifyAll(k, attrs), st') && Rising(attrs)
    ensures h.Id(k) !in st.rows ==> st' == st
    ensures h.Id(k) in st.rows ==>
      var id := h.Id(k); var was := st.rows[id];
      && id in st'.rows && st'.rows - {id} == st.rows - {id} && st'.rows[id].key == was.key
      && ColumnsSet(h, was.data, st'.rows[id].data, attrs) && st'.rows[id].gen == GenAfter(was.gen, |evs|)
      && ModifyReports(h, evs, k, was.data, was.gen, attrs) && Published(st, evs, answers, st')
      && forall e :: e in evs ==> e.Modified? && CarriesOld(h, e, was.data, attrs)
  {
    var op := ModifyAll(k, attrs);
    evs := EventsOf(h, m, st.rows, op);
    if h.Id(k) in st.rows {
      var was := st.rows[h.Id(k)];
      TakenPublishes(h, m, answers, st, op, st');
      ModifyLaw(h, st.rows, k, attrs);
      ModifyReported(h, k, was.data, was.gen, attrs);
      ModifyCarries(h, k, was.data, was.gen, attrs);
    } else {
      NothingPublished(h, m, answers, st, op, st');
    }
  }

  // ---- removals ---------------------------------------------------------

  /** erase removes the row under an existing key and publishes that with the row's last data. */
  lemma EraseTaken(h: Hasher, m: Meta, answers: Answers, st: Store, k: seq<Obj>, st': Store)
    requires m.Valid() && Taken(h, m, answers, st, Erase(k), st')
    ensures if h.Id(k) in st.rows
      then st'.rows == st.rows - {h.Id(k)} && Published(st, [Removed(k, st.rows[h.Id(k)].data)], answers, st')
      else st' == st
  {
    var op := Erase(k);
    if h.Id(k) in st.rows {
      TakenPublishes(h, m, answers, st, op, st');
      CommitLast(h, st.rows, Removed(k, st.rows[h.Id(k)].data));
    } else {
      NothingPublished(h, m, answers, st, op, st');
    }
  }

  /** erase_if removes exactly the rows that satisfy the predicate and publishes one remove for
      each, with its own key and last data. */
  lemma EraseIfTaken(h: Hasher, m: Meta, answers: Answers, st: Store, pred: Row -> bool, order: seq<KeyId>, st': Store)
    returns (evs: seq<Event>)
    requires m.Valid() && Taken(h, m, answers, st, EraseIf(pred, order), st')
    ensures st'.rows == map id | id in st.rows && !pred(st.rows[id]) :: st.rows[id]
    ensures forall e :: e in evs ==>
      && e.Removed? && h.Id(e.key) in st.rows
      && st.rows[h.Id(e.key)].key == e.key && st.rows[h.Id(e.key)].data == e.data
    ensures Enumerates(ErasedIds(h, evs), Chosen(st.rows, pred, st.rows.Keys)) && Published(st, evs, answers, st')
  {
    var op := EraseIf(pred, order);
    evs := EventsOf(h, m, st.rows, op);
    TakenPublishes(h, m, answers, st, op, st');
    EraseIfLaw(h, m, st.rows, pred, order);
    ErasedRows(h, st.rows, pred, order);
  }

  lemma {:induction false} ErasedRows(h: Hasher, rows: Rows, pred: Row -> bool, order: seq<KeyId>)
    requires forall id :: id in rows ==> h.Id(rows[id].key) == id
    requires forall i :: 0 <= i < |order| ==> order[i] in rows
    ensures forall e :: e in EraseEvents(rows, pred, order) ==>
      e.Removed? && h.Id(e.key) in rows && rows[h.Id(e.key)].key == e.key && rows[h.Id(e.key)].data == e.data
    decreases |order|
  {
    if order != [] {
      ErasedRows(h, rows, pred, order[1..]);
    }
  }

  /** clear removes everything and publishes one event. */
  lemma ClearTaken(h: Hasher, m: Meta, answers: Answers, st: Store, st': Store)
    requires m.Valid() && Taken(h, m, answers, st, Clear, st')
    ensures st'.rows == map[] && Published(st, [Cleared], answers, st')
  {
    TakenPublishes(h, m, answers, st, Clear, st');
    CommitLast(h, st.rows, Cleared);
  }

  // ---- subscriptions ----------------------------------------------------

  predicate Appended(hub: Hub, s: SlotId, hub': Hub) {
    && hub'.onInsert == hub.onInsert + [s] && hub'.onModify == hub.onModify + [s]
    && hub'.onRemove == hub.onRemove + [s] && hub'.onClear == hub.onClear + [s]
  }

  /** connect lists the slot last in all four lists and sends it, and no other, every row once
      with its data and generation, between the two transaction marks. */
  lemma ConnectTaken(h: Hasher, m: Meta, answers: Answers, st: Store, s: SlotId, order: seq<KeyId>, st': Store)
    requires m.Valid() && Taken(h, m, answers, st, Connect(s, order), st')
    ensures st'.rows == st.rows && st'.log == st.log && Appended(st.hub, s, st'.hub) && Enumerates(order, st.rows.Keys)
    ensures var n := |st.hub.calls|; var calls := st'.hub.calls;
      && |calls| == n + |order| + 2 && calls[..n] == st.hub.calls
      && calls[n] == Charging(s, Trx(true)) && calls[n + |order| + 1] == Charging(s, Trx(false))
      && forall i :: 0 <= i < |order| ==> order[i] in st.rows && var r := st.rows[order[i]];
        calls[n + 1 + i] == Charging(s, Inserted(r.key, r.data, r.gen))
  {
    ChargeShape(s, st.rows, order);
    var charge := ChargeCalls(s, st.rows, order);
    assert st'.hub.calls == st.hub.calls + charge;
    var n := |st.hub.calls|;
    assert forall i :: 0 <= i < |charge| ==> st'.hub.calls[n + i] == charge[i];
    forall i | 0 <= i < |order|
      ensures order[i] in st.rows && var r := st.rows[order[i]];
        st'.hub.calls[n + 1 + i] == Charging(s, Inserted(r.key, r.data, r.gen))
    {
      assert st'.hub.calls[n + (1 + i)] == charge[1 + i];
    }
  }

  lemma ChargeShape(s: SlotId, rows: Rows, order: seq<KeyId>)
    requires forall i :: 0 <= i < |order| ==> order[i] in rows
    ensures var calls := ChargeCalls(s, rows, order);
      && |calls| == |order| + 2
      && calls[0] == Charging(s, Trx(true)) && calls[|order| + 1] == Charging(s, Trx(false))
      && forall i :: 0 <= i < |order| ==> var r := rows[order[i]];
        calls[1 + i] == Charging(s, Inserted(r.key, r.data, r.gen))
  {
  }

  lemma ConnectOnlyTaken(h: Hasher, m: Meta, answers: Answers, st: Store, s: SlotId, st': Store)
    requires m.Valid() && Taken(h, m, answers, st, ConnectOnlyTo(s), st')
    ensures st'.rows == st.rows && st'.log == st.log && Appended(st.hub, s, st'.hub) && st'.hub.calls == st.hub.calls
  {
  }

  /** The first place of the slot is gone, if it had one. */
  ghost predicate FirstGone(vec: seq<SlotId>, s: SlotId, vec': seq<SlotId>) {
    && (s !in vec ==> vec' == vec)
    && (s in vec ==> exists i :: 0 <= i < |vec| && FirstPlace(vec, s, i) && vec' == vec[..i] + vec[i + 1..])
  }

  predicate FirstPlace(vec: seq<SlotId>, s: SlotId, i: nat)
    requires i < |vec|
  {
    vec[i] == s && s !in vec[..i]
  }

  lemma {:induction false} RemoveAt(vec: seq<SlotId>, s: SlotId, i: nat)
    requires i < |vec| && FirstPlace(vec, s, i)
    ensures RemoveFirst(vec, s) == vec[..i] + vec[i + 1..]
    decreases i
  {
    if i > 0 {
      assert vec[0] == vec[..i][0];
      assert vec[1..][..i - 1] == vec[..i][1..] && forall x :: x in vec[..i][1..] ==> x in vec[..i];
      RemoveAt(vec[1..], s, i - 1);
      assert [vec[0]] + (vec[1..][..i - 1] + vec[1..][i..]) == vec[..i] + vec[i + 1..];
    }
  }

  lemma {:induction false} FindFirst(vec: seq<SlotId>, s: SlotId) returns (i: nat)
    requires s in vec
    ensures i < |vec| && FirstPlace(vec, s, i)
    decreases |vec|
  {
    if vec[|vec| - 1] == s && s !in vec[..|vec| - 1] {
      i := |vec| - 1;
    } else {
      var init := vec[..|vec| - 1];
      assert vec == init + [vec[|vec| - 1]];
      i := FindFirst(init, s);
      assert vec[..i] == init[..i];
    }
  }

  lemma RemoveFirstLaw(vec: seq<SlotId>, s: SlotId)
    ensures FirstGone(vec, s, RemoveFirst(vec, s))
  {
    if s in vec {
      var i := FindFirst(vec, s);
      RemoveAt(vec, s, i);
    } else {
      RemoveNone(vec, s);
    }
  }

  lemma {:induction false} RemoveNone(vec: seq<SlotId>, s: SlotId)
    requires s !in vec
    ensures RemoveFirst(vec, s) == vec
    decreases |vec|
  {
    if vec != [] { RemoveNone(vec[1..], s); }
  }

  /** disconnect takes one place of the slot off each list. */
  lemma DisconnectTaken(h: Hasher, m: Meta, answers: Answers, st: Store, s: SlotId, st': Store)
    requires m.Valid() && Taken(h, m, answers, st, DisconnectFrom(s), st')
    ensures st'.rows == st.rows && st'.log == st.log && st'.hub.calls == st.hub.calls
    ensures FirstGone(st.hub.onInsert, s, st'.hub.onInsert) && FirstGone(st.hub.onModify, s, st'.hub.onModify)
    ensures FirstGone(st.hub.onRemove, s, st'.hub.onRemove) && FirstGone(st.hub.onClear, s, st'.hub.onClear)
  {
    RemoveFirstLaw(st.hub.onInsert, s);
    RemoveFirstLaw(st.hub.onModify, s);
    RemoveFirstLaw(st.hub.onRemove, s);
    RemoveFirstLaw(st.hub.onClear, s);
  }
}
