/** What the operations mean for the rows, and which slots an event leaves listed. */
module StoreRows {
  import opened Dom
  import opened Schema
  import opened StoreModel
  import opened StoreReplicas

  /** The generation `n` events later. */
  function GenAfter(gen: Gen, n: nat): Gen { (gen + n) % U64 }

  lemma GenAfterNext(gen: Gen, n: nat)
    ensures GenAfter(NextGen(gen), n) == GenAfter(gen, n + 1) == NextGen(GenAfter(gen, n))
  {
    WrapsOnce(gen + 1, n);
    WrapsOnce(gen + n, 1);
  }

  /** Wrapping before an addition makes no difference. */
  lemma WrapsOnce(a: nat, b: nat)
    ensures (a % U64 + b) % U64 == (a + b) % U64
  {
    var q, r := a / U64, a % U64 + b;
    assert a + b == q * U64 + r;
    var q', r' := r / U64, r % U64;
    assert a + b == (q + q') * U64 + r';
  }

  // ---- merge ------------------------------------------------------------

  /** From column `idx` on, the differing columns are overwritten and reported in rising order. */
  lemma {:induction false} UpdateLaw(h: Hasher, rows: Rows, k: seq<Obj>, data: seq<Obj>, idx: nat)
    requires h.Id(k) in rows && |rows[h.Id(k)].data| == |data| && idx <= |data|
    ensures var id := h.Id(k); var was := rows[id];
      var evs := UpdateEvents(h, k, was.data, was.gen, data, idx);
      var rows' := CommitAll(h, rows, evs);
      && id in rows' && rows' - {id} == rows - {id} && rows'[id].key == was.key && |rows'[id].data| == |data|
      && (forall i :: 0 <= i < idx ==> rows'[id].data[i] == was.data[i])
      && (forall i :: idx <= i < |data| ==>
        rows'[id].data[i] == if h.Same(was.data[i], data[i]) then was.data[i] else data[i])
      && rows'[id].gen == GenAfter(was.gen, |evs|)
    decreases |data| - idx
  {
    var id := h.Id(k);
    var was := rows[id];
    if idx < |data| {
      if h.Same(was.data[idx], data[idx]) {
        UpdateLaw(h, rows, k, data, idx + 1);
      } else {
        var next := was.data[idx := data[idx]];
        var e := Modified(k, idx, data[idx], next, NextGen(was.gen));
        UpdateLaw(h, Commit(h, rows, e), k, data, idx + 1);
        GenAfterNext(was.gen, |UpdateEvents(h, k, next, NextGen(was.gen), data, idx + 1)|);
      }
    }
  }

  /** One event for each column from `idx` on in which the data differs, in rising order,
      each carrying the new value and the generation it makes. */
  ghost predicate Reports(h: Hasher, evs: seq<Event>, k: seq<Obj>, cur: seq<Obj>, gen: Gen, data: seq<Obj>, idx: nat)
    requires |cur| == |data|
  {
    && (forall j :: 0 <= j < |evs| ==> ReportsOne(h, evs[j], k, cur, data, idx))
    && (forall j :: 0 <= j < |evs| ==> evs[j].Modified? && evs[j].gen == GenAfter(gen, j + 1))
    && (forall j, l :: 0 <= j < l < |evs| ==> evs[j].Modified? && evs[l].Modified? && evs[j].idx < evs[l].idx)
    && (forall i :: idx <= i < |data| && !h.Same(cur[i], data[i]) ==> Reported(evs, i))
  }

  predicate ReportsOne(h: Hasher, e: Event, k: seq<Obj>, cur: seq<Obj>, data: seq<Obj>, idx: nat)
    requires |cur| == |data|
  {
    && e.Modified? && e.key == k && idx <= e.idx < |data|
    && !h.Same(cur[e.idx], data[e.idx]) && e.value == data[e.idx]
  }

  ghost predicate Reported(evs: seq<Event>, i: nat) {
    exists j :: 0 <= j < |evs| && evs[j].Modified? && evs[j].idx == i
  }

  lemma {:induction false} UpdateReports(h: Hasher, k: seq<Obj>, cur: seq<Obj>, gen: Gen, data: seq<Obj>, idx: nat)
    requires |cur| == |data| && idx <= |data|
    ensures Reports(h, UpdateEvents(h, k, cur, gen, data, idx), k, cur, gen, data, idx)
    decreases |data| - idx
  {
    if idx < |data| {
      if h.Same(cur[idx], data[idx]) {
        UpdateReports(h, k, cur, gen, data, idx + 1);
      } else {
        var next := cur[idx := data[idx]];
        UpdateReports(h, k, next, NextGen(gen), data, idx + 1);
        var rest := UpdateEvents(h, k, next, NextGen(gen), data, idx + 1);
        ReportsMore(h, rest, k, cur, gen, data, idx);
      }
    }
  }

  lemma ReportsMore(h: Hasher, rest: seq<Event>, k: seq<Obj>, cur: seq<Obj>, gen: Gen, data: seq<Obj>, idx: nat)
    requires |cur| == |data| && idx < |data| && !h.Same(cur[idx], data[idx])
    requires Reports(h, rest, k, cur[idx := data[idx]], NextGen(gen), data, idx + 1)
    ensures var e := Modified(k, idx, data[idx], cur[idx := data[idx]], NextGen(gen));
      Reports(h, [e] + rest, k, cur, gen, data, idx)
  {
    var next := cur[idx := data[idx]];
    var e := Modified(k, idx, data[idx], next, NextGen(gen));
    var evs := [e] + rest;
    forall j | 0 <= j < |evs|
      ensures ReportsOne(h, evs[j], k, cur, data, idx) && evs[j].gen == GenAfter(gen, j + 1)
    {
      if j > 0 {
        assert ReportsOne(h, rest[j - 1], k, next, data, idx + 1);
        GenAfterNext(gen, j);
      }
    }
    forall i | idx <= i < |data| && !h.Same(cur[i], data[i]) ensures Reported(evs, i) {
      if i == idx {
        assert evs[0].idx == i;
      } else {
        assert Reported(rest, i);
        var j :| 0 <= j < |rest| && rest[j].Modified? && rest[j].idx == i;
        assert evs[j + 1].idx == i;
      }
    }
    forall j, l | 0 <= j < l < |evs| ensures evs[j].idx < evs[l].idx {
      assert ReportsOne(h, rest[l - 1], k, next, data, idx + 1);
      if j > 0 { assert rest[j - 1].idx < rest[l - 1].idx; }
    }
  }

  /** merge of well-sized data: afterwards the row equals the data column by column under
      object equality, no other row changed, and the events are one insert, or one modify per
      differing column in rising order, each carrying the generation it made. */
  lemma {:induction false} MergeLaw(h: Hasher, m: Meta, rows: Rows, k: seq<Obj>, d: seq<Obj>, g: Gen)
    requires m.Valid() && WellFiled(h, m, rows) && m.CheckIntegrity(k, d)
    ensures var id := h.Id(k);
      var rows' := CommitAll(h, rows, EventsOf(h, m, rows, Merge(k, d, g)));
      && id in rows' && rows' - {id} == rows - {id}
      && |rows'[id].data| == |d| && (forall i :: 0 <= i < |d| ==> h.Same(rows'[id].data[i], d[i]))
    ensures h.Id(k) !in rows ==>
      && EventsOf(h, m, rows, Merge(k, d, g)) == [Inserted(k, d, g)]
      && CommitAll(h, rows, EventsOf(h, m, rows, Merge(k, d, g)))[h.Id(k)] == Row(k, d, g)
    ensures h.Id(k) in rows ==>
      var was := rows[h.Id(k)];
      var evs := EventsOf(h, m, rows, Merge(k, d, g));
      var now := CommitAll(h, rows, evs)[h.Id(k)];
      now.key == was.key && now.gen == GenAfter(was.gen, |evs|) && Reports(h, evs, k, was.data, was.gen, d, 0)
  {
    var id := h.Id(k);
    if id in rows {
      UpdateLaw(h, rows, k, d, 0);
      UpdateReports(h, k, rows[id].data, rows[id].gen, d, 0);
    } else {
      var e := Inserted(k, d, g);
      assert CommitAll(h, rows, [e]) == CommitAll(h, Commit(h, rows, e), []);
      assert rows[id := Row(k, d, g)] - {id} == rows - {id};
    }
  }

  // ---- modify -----------------------------------------------------------

  /** The attributes as std::map hands them out: strictly rising indices. */
  predicate Rising(attrs: seq<(nat, Obj)>) {
    forall i, j :: 0 <= i < j < |attrs| ==> attrs[i].0 < attrs[j].0
  }

  /** An object equal to the present one is not stored. */
  function Taken1(h: Hasher, was: Obj, v: Obj): Obj { if h.Same(was, v) then was else v }

  ghost predicate ColumnsSet(h: Hasher, was: seq<Obj>, now: seq<Obj>, attrs: seq<(nat, Obj)>) {
    && |now| == |was|
    && (forall j :: 0 <= j < |attrs| && attrs[j].0 < |was| ==>
      now[attrs[j].0] == Taken1(h, was[attrs[j].0], attrs[j].1))
    && (forall i :: 0 <= i < |was| && !Names(attrs, i) ==> now[i] == was[i])
  }

  ghost predicate Names(attrs: seq<(nat, Obj)>, i: nat) {
    exists j :: 0 <= j < |attrs| && attrs[j].0 == i
  }

  /** modify sets each named column to the given object unless the two are equal already,
      ignores indices outside the body, and counts one generation per event. */
  lemma {:induction false} ModifyLaw(h: Hasher, rows: Rows, k: seq<Obj>, attrs: seq<(nat, Obj)>)
    requires h.Id(k) in rows && Rising(attrs)
    ensures var id := h.Id(k); var was := rows[id];
      var evs := ModifyEvents(h, k, was.data, was.gen, attrs);
      var rows' := CommitAll(h, rows, evs);
      && id in rows' && rows' - {id} == rows - {id} && rows'[id].key == was.key
      && ColumnsSet(h, was.data, rows'[id].data, attrs)
      && rows'[id].gen == GenAfter(was.gen, |evs|)
    decreases |attrs|
  {
    var id := h.Id(k);
    var was := rows[id];
    if attrs != [] {
      var (idx, v) := attrs[0];
      var evs := ModifyEvents(h, k, was.data, was.gen, attrs[1..]);
      if idx < |was.data| && !h.Same(was.data[idx], v) {
        var e := Modified(k, idx, v, was.data, was.gen);
        var next := Commit(h, rows, e);
        evs := ModifyEvents(h, k, next[id].data, next[id].gen, attrs[1..]);
        ModifyLaw(h, next, k, attrs[1..]);
        GenAfterNext(was.gen, |evs|);
        assert ModifyEvents(h, k, was.data, was.gen, attrs) == [e] + evs;
        ColumnsMore(h, was.data, CommitAll(h, next, evs)[id].data, attrs);
        assert next - {id} == rows - {id};
      } else {
        ModifyLaw(h, rows, k, attrs[1..]);
        ColumnsSame(h, was.data, CommitAll(h, rows, evs)[id].data, attrs);
      }
    }
  }

  lemma NamesTail(attrs: seq<(nat, Obj)>, i: nat)
    requires attrs != []
    ensures Names(attrs, i) <==> attrs[0].0 == i || Names(attrs[1..], i)
  {
  }

  lemma ColumnsMore(h: Hasher, was: seq<Obj>, now: seq<Obj>, attrs: seq<(nat, Obj)>)
    requires attrs != [] && Rising(attrs) && attrs[0].0 < |was| && !h.Same(was[attrs[0].0], attrs[0].1)
    requires ColumnsSet(h, was[attrs[0].0 := attrs[0].1], now, attrs[1..])
    ensures ColumnsSet(h, was, now, attrs)
  {
  }

  lemma ColumnsSame(h: Hasher, was: seq<Obj>, now: seq<Obj>, attrs: seq<(nat, Obj)>)
    requires attrs != [] && Rising(attrs) && !(attrs[0].0 < |was| && !h.Same(was[attrs[0].0], attrs[0].1))
    requires ColumnsSet(h, was, now, attrs[1..])
    ensures ColumnsSet(h, was, now, attrs)
  {
  }

  // ---- erase_if ---------------------------------------------------------

  function Chosen(rows: Rows, pred: Row -> bool, ids: set<KeyId>): set<KeyId> {
    set id | id in ids && id in rows && pred(rows[id])
  }

  function ErasedIds(h: Hasher, evs: seq<Event>): seq<KeyId>
    requires forall e :: e in evs ==> e.Removed?
  {
    seq(|evs|, i requires 0 <= i < |evs| => h.Id(evs[i].key))
  }

  function Elements<K>(s: seq<K>): set<K> { set x | x in s }

  /** One more row of a pass is chosen or not. */
  lemma ChosenMore(all: Rows, pred: Row -> bool, order: seq<KeyId>)
    requires order != [] && order[0] in all && order[0] !in order[1..]
    ensures var more := Chosen(all, pred, Elements(order[1..]));
      && order[0] !in more
      && Chosen(all, pred, Elements(order)) == if pred(all[order[0]]) then {order[0]} + more else more
  {
  }

  lemma {:induction false} ErasePassRows(h: Hasher, rows: Rows, all: Rows, pred: Row -> bool, order: seq<KeyId>)
    requires forall id :: id in all ==> h.Id(all[id].key) == id
    requires forall i :: 0 <= i < |order| ==> order[i] in all
    requires forall i, j :: 0 <= i < j < |order| ==> order[i] != order[j]
    ensures CommitAll(h, rows, EraseEvents(all, pred, order)) == rows - Chosen(all, pred, Elements(order))
    decreases |order|
  {
    if order == [] {
      assert rows - {} == rows;
    } else {
      var id := order[0];
      var rest := EraseEvents(all, pred, order[1..]);
      ChosenMore(all, pred, order);
      if pred(all[id]) {
        ErasePassRows(h, rows - {id}, all, pred, order[1..]);
        assert EraseEvents(all, pred, order) == [Removed(all[id].key, all[id].data)] + rest;
        var more := Chosen(all, pred, Elements(order[1..]));
        assert rows - {id} - more == rows - ({id} + more);
      } else {
        ErasePassRows(h, rows, all, pred, order[1..]);
        assert EraseEvents(all, pred, order) == rest;
      }
    }
  }

  /** A pass over some of the rows removes those that satisfy the predicate, once each. */
  lemma {:induction false} ErasePassOnce(h: Hasher, all: Rows, pred: Row -> bool, order: seq<KeyId>)
    requires forall id :: id in all ==> h.Id(all[id].key) == id
    requires forall i :: 0 <= i < |order| ==> order[i] in all
    requires forall i, j :: 0 <= i < j < |order| ==> order[i] != order[j]
    ensures forall e :: e in EraseEvents(all, pred, order) ==> e.Removed?
    ensures Enumerates(ErasedIds(h, EraseEvents(all, pred, order)), Chosen(all, pred, Elements(order)))
    decreases |order|
  {
    OnlyRemoved(all, pred, order);
    if order != [] {
      var id := order[0];
      var rest := EraseEvents(all, pred, order[1..]);
      ChosenMore(all, pred, order);
      ErasePassOnce(h, all, pred, order[1..]);
      if pred(all[id]) {
        assert ErasedIds(h, EraseEvents(all, pred, order)) == [id] + ErasedIds(h, rest);
        EnumeratesMore(id, ErasedIds(h, rest), Chosen(all, pred, Elements(order[1..])));
      } else {
        assert EraseEvents(all, pred, order) == rest;
      }
    }
  }

  lemma EnumeratesMore<K>(x: K, order: seq<K>, keys: set<K>)
    requires Enumerates(order, keys) && x !in keys
    ensures Enumerates([x] + order, {x} + keys)
  {
  }

  /** erase_if keeps exactly the rows that fail the predicate and publishes one remove per
      erased row, whatever order the pass takes; its count is the number of those rows. */
  lemma {:induction false} EraseIfLaw(h: Hasher, m: Meta, rows: Rows, pred: Row -> bool, order: seq<KeyId>)
    requires m.Valid() && WellFiled(h, m, rows) && Enumerates(order, rows.Keys)
    ensures forall e :: e in EventsOf(h, m, rows, EraseIf(pred, order)) ==> e.Removed?
    ensures CommitAll(h, rows, EventsOf(h, m, rows, EraseIf(pred, order)))
         == map id | id in rows && !pred(rows[id]) :: rows[id]
    ensures Enumerates(ErasedIds(h, EventsOf(h, m, rows, EraseIf(pred, order))), Chosen(rows, pred, rows.Keys))
    ensures |EventsOf(h, m, rows, EraseIf(pred, order))| == |Chosen(rows, pred, rows.Keys)|
  {
    assert EventsOf(h, m, rows, EraseIf(pred, order)) == EraseEvents(rows, pred, order);
    ErasePassRows(h, rows, rows, pred, order);
    ErasePassOnce(h, rows, pred, order);
    assert Elements(order) == rows.Keys;
    assert rows - Chosen(rows, pred, rows.Keys) == map id | id in rows && !pred(rows[id]) :: rows[id];
    EnumerationSize(ErasedIds(h, EraseEvents(rows, pred, order)), Chosen(rows, pred, rows.Keys));
  }

  // ---- generations ------------------------------------------------------

  predicate Concerns(h: Hasher, e: Event, id: KeyId) {
    match e
    case Inserted(k, _, _) => h.Id(k) == id
    case Removed(k, _) => h.Id(k) == id
    case Cleared => true
    case _ => false
  }

  function Bumps(h: Hasher, events: seq<Event>, id: KeyId): nat {
    if events == [] then 0
    else (if events[0].Modified? && h.Id(events[0].key) == id then 1 else 0) + Bumps(h, events[1..], id)
  }

  lemma {:induction false} BumpsAppend(h: Hasher, a: seq<Event>, e: Event, id: KeyId)
    ensures Bumps(h, a + [e], id) == Bumps(h, a, id) + if e.Modified? && h.Id(e.key) == id then 1 else 0
    decreases |a|
  {
    if a != [] {
      assert (a + [e])[1..] == a[1..] + [e];
      BumpsAppend(h, a[1..], e, id);
    }
  }

  ghost predicate InsertedAt(h: Hasher, events: seq<Event>, id: KeyId, i: nat, gen: Gen) {
    && i < |events| && events[i].Inserted? && h.Id(events[i].key) == id
    && (forall j :: i < j < |events| ==> !Concerns(h, events[j], id))
    && gen == GenAfter(events[i].gen, Bumps(h, events[i + 1..], id))
  }

  lemma InsertedAtMore(h: Hasher, events: seq<Event>, e: Event, id: KeyId, i: nat, gen: Gen)
    requires InsertedAt(h, events, id, i, gen) && !Concerns(h, e, id)
    ensures InsertedAt(h, events + [e], id, i, if e.Modified? && h.Id(e.key) == id then NextGen(gen) else gen)
  {
    var more := events + [e];
    var bumps := Bumps(h, events[i + 1..], id);
    assert more[i + 1..] == events[i + 1..] + [e];
    assert more[i] == events[i];
    BumpsAppend(h, events[i + 1..], e, id);
    GenAfterNext(events[i].gen, bumps);
    forall j | i < j < |more| ensures !Concerns(h, more[j], id) {
    }
  }

  /** A row's generation is that of its insert plus the modify events published for it since. */
  lemma {:induction false} GenerationLaw(h: Hasher, events: seq<Event>, id: KeyId) returns (i: nat)
    requires id in CommitAll(h, map[], events)
    ensures InsertedAt(h, events, id, i, CommitAll(h, map[], events)[id].gen)
    decreases |events|
  {
    var n := |events| - 1;
    var before := CommitAll(h, map[], events[..n]);
    var e := events[n];
    assert events == events[..n] + [e];
    CommitAppend(h, map[], events[..n], [e]);
    CommitLast(h, before, e);
    if e.Inserted? && h.Id(e.key) == id {
      i := n;
      assert events[i + 1..] == [];
    } else {
      i := GenerationLaw(h, events[..n], id);
      InsertedAtMore(h, events[..n], e, id, i, before[id].gen);
    }
  }

  lemma {:induction false} CommitLast(h: Hasher, rows: Rows, e: Event)
    ensures CommitAll(h, rows, [e]) == Commit(h, rows, e)
  {
  }

  /** In every run of a table that started empty, the rows are what its published events
      say, and every generation is explained by them. */
  lemma {:induction false} RunLaw(h: Hasher, m: Meta, answers: Answers, states: seq<Store>, ops: seq<Request>, n: nat)
    requires m.Valid() && Run(h, m, answers, states, ops) && n <= |ops|
    requires states[0].rows == map[] && states[0].log == []
    ensures states[n].rows == CommitAll(h, map[], states[n].log)
    ensures WellFiled(h, m, states[n].rows)
    ensures forall id :: id in states[n].rows ==>
      exists i :: InsertedAt(h, states[n].log, id, i, states[n].rows[id].gen)
    decreases n
  {
    if n > 0 {
      var p := n - 1;
      RunLaw(h, m, answers, states, ops, p);
      assert Taken(h, m, answers, states[p], ops[p], states[n]);
      StepFiled(h, m, answers, states[p], ops[p]);
      CommitAppend(h, map[], states[p].log, EventsOf(h, m, states[p].rows, ops[p]));
    }
    forall id | id in states[n].rows ensures exists i :: InsertedAt(h, states[n].log, id, i, states[n].rows[id].gen) {
      var i := GenerationLaw(h, states[n].log, id);
    }
  }

  // ---- which slots stay listed ------------------------------------------

  predicate Consistent(vec: seq<SlotId>, n: nat, answers: Answers) {
    forall i, j :: 0 <= i < |vec| && 0 <= j < |vec| && vec[i] == vec[j] ==> answers(n + i) == answers(n + j)
  }

  function Without(vec: seq<SlotId>, gone: set<SlotId>): seq<SlotId> {
    if vec == [] then [] else (if vec[0] in gone then [] else [vec[0]]) + Without(vec[1..], gone)
  }

  lemma {:induction false} WithoutRemoved(vec: seq<SlotId>, gone: set<SlotId>, s: SlotId)
    requires s in gone
    ensures Without(RemoveFirst(vec, s), gone) == Without(vec, gone)
    decreases |vec|
  {
    if vec != [] && vec[0] != s {
      WithoutRemoved(vec[1..], gone, s);
    }
  }

  lemma {:induction false} WithoutNone(vec: seq<SlotId>, gone: set<SlotId>)
    requires forall s :: s in vec ==> s !in gone
    ensures Without(vec, gone) == vec
    decreases |vec|
  {
    if vec != [] {
      WithoutNone(vec[1..], gone);
    }
  }

  lemma {:induction false} TidyIsWithout(vec: seq<SlotId>, expired: seq<SlotId>, gone: set<SlotId>)
    requires forall s :: multiset(expired)[s] == if s in gone then multiset(vec)[s] else 0
    ensures Tidy(vec, expired) == Without(vec, gone)
    decreases |expired|
  {
    if expired == [] {
      forall s | s in vec ensures s !in gone {
        assert multiset(vec)[s] > 0;
      }
      WithoutNone(vec, gone);
    } else {
      var s := expired[0];
      assert expired == [s] + expired[1..];
      assert multiset(expired)[s] > 0;
      RemoveFirstKeeps(vec, s);
      TidyIsWithout(RemoveFirst(vec, s), expired[1..], gone);
      WithoutRemoved(vec, gone, s);
    }
  }

  lemma {:induction false} AnsweringSplits(vec: seq<SlotId>, n: nat, answers: Answers)
    ensures multiset(vec) == multiset(Answering(vec, n, answers, true)) + multiset(Answering(vec, n, answers, false))
    decreases |vec|
  {
    if vec != [] {
      assert vec == [vec[0]] + vec[1..];
      AnsweringSplits(vec[1..], n + 1, answers);
    }
  }

  lemma {:induction false} AnsweringIsWithout(vec: seq<SlotId>, n: nat, answers: Answers, gone: set<SlotId>)
    requires forall i :: 0 <= i < |vec| ==> (answers(n + i) <==> vec[i] !in gone)
    ensures Answering(vec, n, answers, true) == Without(vec, gone)
    ensures forall s :: multiset(Answering(vec, n, answers, false))[s] == if s in gone then multiset(vec)[s] else 0
    decreases |vec|
  {
    if vec != [] {
      assert vec == [vec[0]] + vec[1..];
      assert answers(n + 0) <==> vec[0] !in gone;
      forall i | 0 <= i < |vec[1..]| ensures answers(n + 1 + i) <==> vec[1..][i] !in gone {
        assert answers(n + (i + 1)) <==> vec[i + 1] !in gone;
      }
      AnsweringIsWithout(vec[1..], n + 1, answers, gone);
    }
  }

  lemma {:induction false} TidyCounts(vec: seq<SlotId>, n: nat, answers: Answers)
    ensures multiset(Tidy(vec, Reverse(Answering(vec, n, answers, false))))
      == multiset(Answering(vec, n, answers, true))
  {
    var dead := Answering(vec, n, answers, false);
    AnsweringSplits(vec, n, answers);
    ReverseMultiset(dead);
    TidyKeeps(vec, Reverse(dead));
  }

  /** Every event goes to each listed slot once, in list order, and the list keeps
      as many entries of a slot as it gave true answers. */
  lemma ForwardLaw(hub: Hub, e: Event, answers: Answers)
    ensures var hub' := Forward(hub, e, answers); var n := |hub.calls|;
      && |hub'.calls| == n + |hub.onInsert| && hub'.calls[..n] == hub.calls
      && (forall i :: 0 <= i < |hub.onInsert| ==> hub'.calls[n + i] == Call(hub.onInsert[i], e))
      && multiset(hub'.onInsert) == multiset(Answering(hub.onInsert, n, answers, true))
  {
    TidyCounts(hub.onInsert, |hub.calls|, answers);
  }

  lemma {:induction false} TidyKeepsOrder(vec: seq<SlotId>, n: nat, answers: Answers)
    requires Consistent(vec, n, answers)
    ensures Tidy(vec, Reverse(Answering(vec, n, answers, false))) == Answering(vec, n, answers, true)
  {
    var dead := Answering(vec, n, answers, false);
    var gone := set s | s in dead;
    forall i | 0 <= i < |vec| ensures answers(n + i) <==> vec[i] !in gone {
      AnsweringMembers(vec, n, answers, false, vec[i]);
    }
    AnsweringIsWithout(vec, n, answers, gone);
    ReverseMultiset(dead);
    TidyIsWithout(vec, Reverse(dead), gone);
  }

  /** The places of each slot lie next to each other. */
  predicate Adjacent(vec: seq<SlotId>) {
    forall i, j, k :: 0 <= i < j < k < |vec| && vec[i] == vec[k] ==> vec[j] == vec[i]
  }

  /** Whatever the slots answer and however many calls came before, the list becomes
      the slots that answered true, in the old order. */
  ghost predicate KeepsOrder(vec: seq<SlotId>) {
    forall hub: Hub, e: Event, answers: Answers :: hub.onInsert == vec ==>
      Forward(hub, e, answers).onInsert == Answering(vec, |hub.calls|, answers, true)
  }

  lemma {:induction false} RemoveFirstAppend(vec: seq<SlotId>, x: SlotId, s: SlotId)
    requires s in vec
    ensures RemoveFirst(vec + [x], s) == RemoveFirst(vec, s) + [x]
    decreases |vec|
  {
    assert (vec + [x])[0] == vec[0] && (vec + [x])[1..] == vec[1..] + [x];
    if vec[0] != s {
      RemoveFirstAppend(vec[1..], x, s);
    }
  }

  lemma {:induction false} TidyAppend(vec: seq<SlotId>, x: SlotId, expired: seq<SlotId>)
    requires multiset(expired) <= multiset(vec)
    ensures Tidy(vec + [x], expired) == Tidy(vec, expired) + [x]
    decreases |expired|
  {
    if expired != [] {
      assert expired == [expired[0]] + expired[1..];
      assert expired[0] in multiset(vec);
      RemoveFirstAppend(vec, x, expired[0]);
      RemoveFirstKeeps(vec, expired[0]);
      TidyAppend(RemoveFirst(vec, expired[0]), x, expired[1..]);
    }
  }

  /** Among adjacent places it makes no difference whether the first or the last is given up. */
  lemma {:induction false} RemoveLast(vec: seq<SlotId>)
    requires vec != [] && Adjacent(vec)
    ensures RemoveFirst(vec, vec[|vec| - 1]) == vec[..|vec| - 1]
    decreases |vec|
  {
    var n := |vec| - 1;
    if n > 0 {
      var rest := vec[1..];
      assert forall i :: 0 <= i < |rest| ==> rest[i] == vec[i + 1];
      RemoveLast(rest);
      if vec[0] == vec[n] {
        forall i | 0 <= i < n ensures vec[1..][i] == vec[..n][i] {
          assert vec[i + 1] == vec[0];
        }
      }
    }
  }

  /** One more slot asked is one more slot in the list of those with its answer. */
  lemma {:induction false} AnsweringSnoc(vec: seq<SlotId>, x: SlotId, n: nat, answers: Answers, verdict: bool)
    ensures Answering(vec + [x], n, answers, verdict) ==
      Answering(vec, n, answers, verdict) + if answers(n + |vec|) == verdict then [x] else []
    decreases |vec|
  {
    if vec == [] {
      assert vec + [x] == [x];
    } else {
      assert (vec + [x])[0] == vec[0] && (vec + [x])[1..] == vec[1..] + [x];
      AnsweringSnoc(vec[1..], x, n + 1, answers, verdict);
      var first, mid := if answers(n) == verdict then [vec[0]] else [], Answering(vec[1..], n + 1, answers, verdict);
      var last := if answers(n + |vec|) == verdict then [x] else [];
      assert Answering(vec + [x], n, answers, verdict) == first + Answering(vec[1..] + [x], n + 1, answers, verdict);
      assert first + (mid + last) == (first + mid) + last;
    }
  }

  lemma {:induction false} AdjacentKeepsOrder(vec: seq<SlotId>, n: nat, answers: Answers)
    requires Adjacent(vec)
    ensures Tidy(vec, Reverse(Answering(vec, n, answers, false))) == Answering(vec, n, answers, true)
    decreases |vec|
  {
    if vec != [] {
      var init, x := vec[..|vec| - 1], vec[|vec| - 1];
      var dead := Answering(init, n, answers, false);
      assert vec == init + [x];
      AdjacentKeepsOrder(init, n, answers);
      AnsweringSnoc(init, x, n, answers, false);
      AnsweringSnoc(init, x, n, answers, true);
      if answers(n + |init|) {
        LastStays(init, x, n, answers);
        assert dead + [] == dead;
      } else {
        LastGoes(vec, dead);
        assert Answering(init, n, answers, true) + [] == Answering(init, n, answers, true);
      }
    }
  }

  lemma LastStays(init: seq<SlotId>, x: SlotId, n: nat, answers: Answers)
    ensures var dead := Answering(init, n, answers, false);
      Tidy(init + [x], Reverse(dead)) == Tidy(init, Reverse(dead)) + [x]
  {
    var dead := Answering(init, n, answers, false);
    AnsweringSplits(init, n, answers);
    ReverseMultiset(dead);
    TidyAppend(init, x, Reverse(dead));
  }

  lemma LastGoes(vec: seq<SlotId>, dead: seq<SlotId>)
    requires vec != [] && Adjacent(vec)
    ensures Tidy(vec, Reverse(dead + [vec[|vec| - 1]])) == Tidy(vec[..|vec| - 1], Reverse(dead))
  {
    var x := vec[|vec| - 1];
    ReverseSnoc(dead, x);
    assert ([x] + Reverse(dead))[1..] == Reverse(dead);
    RemoveLast(vec);
  }

  function AllBut(k: nat): Answers { c => c != k }

  /** The list without its k-th place. */
  function Skip(vec: seq<SlotId>, k: nat): seq<SlotId> { if k < |vec| then vec[..k] + vec[k + 1..] else vec }

  lemma SkipSnoc(init: seq<SlotId>, x: SlotId, k: nat)
    ensures Skip(init + [x], k) == Skip(init, k) + if k == |init| then [] else [x]
  {
    var vec := init + [x];
    if k < |init| {
      assert vec[..k] == init[..k] && vec[k + 1..] == init[k + 1..] + [x];
    } else if k == |init| {
      assert vec[..k] == init && vec[k + 1..] == [];
    }
  }

  /** When only the k-th call is answered false, exactly the k-th place is due to go. */
  lemma {:induction false} OneDead(vec: seq<SlotId>, k: nat)
    ensures Answering(vec, 0, AllBut(k), true) == Skip(vec, k)
    ensures Answering(vec, 0, AllBut(k), false) == if k < |vec| then [vec[k]] else []
    decreases |vec|
  {
    if vec != [] {
      var init, x := vec[..|vec| - 1], vec[|vec| - 1];
      assert vec == init + [x];
      assert AllBut(k)(0 + |init|) == (k != |init|);
      OneDead(init, k);
      AnsweringSnoc(init, x, 0, AllBut(k), true);
      AnsweringSnoc(init, x, 0, AllBut(k), false);
      SkipSnoc(init, x, k);
    }
  }

  /** If giving up the first place looks like giving up the k-th, only this slot lies between. */
  lemma {:induction false} SameRun(vec: seq<SlotId>, i: nat, k: nat)
    requires i < k < |vec| && vec[i] == vec[k]
    requires RemoveFirst(vec, vec[k]) == vec[..k] + vec[k + 1..]
    ensures forall j :: i <= j <= k ==> vec[j] == vec[i]
    decreases |vec|
  {
    if vec[0] == vec[k] {
      forall p | 0 < p <= k ensures vec[p] == vec[p - 1] {
        assert vec[1..][p - 1] == (vec[..k] + vec[k + 1..])[p - 1];
      }
      AllSame(vec, k);
    } else {
      var rest := vec[1..];
      assert rest[i - 1] == vec[i] && rest[k - 1] == vec[k];
      assert (vec[..k] + vec[k + 1..])[1..] == rest[..k - 1] + rest[k..];
      SameRun(rest, i - 1, k - 1);
      assert forall j :: i <= j <= k ==> vec[j] == rest[j - 1];
    }
  }

  lemma {:induction false} AllSame(vec: seq<SlotId>, k: nat)
    requires k < |vec| && forall p :: 0 < p <= k ==> vec[p] == vec[p - 1]
    ensures forall p :: 0 <= p <= k ==> vec[p] == vec[0]
    decreases k
  {
    if k > 0 {
      AllSame(vec, k - 1);
      assert vec[k] == vec[k - 1];
    }
  }

  /** The order of the survivors is kept for all answers, and after any number of calls, if
      and only if the places of each slot are adjacent in the list. */
  lemma OrderKeptExactly(vec: seq<SlotId>)
    ensures KeepsOrder(vec) <==> Adjacent(vec)
  {
    if KeepsOrder(vec) {
      forall i, j, k | 0 <= i < j < k < |vec| && vec[i] == vec[k] ensures vec[j] == vec[i] {
        var answers := AllBut(k);
        var hub := Hub(vec, [], [], [], []);
        OneDead(vec, k);
        assert Forward(hub, Cleared, answers).onInsert == Tidy(vec, Reverse([vec[k]]));
        assert Reverse([vec[k]]) == [vec[k]];
        assert Tidy(vec, [vec[k]]) == Tidy(RemoveFirst(vec, vec[k]), []);
        SameRun(vec, i, k);
      }
    }
    if Adjacent(vec) {
      forall hub: Hub, e: Event, answers: Answers | hub.onInsert == vec
        ensures Forward(hub, e, answers).onInsert == Answering(vec, |hub.calls|, answers, true)
      {
        AdjacentKeepsOrder(vec, |hub.calls|, answers);
      }
    }
  }

  /** For one event it is also enough that no slot contradicts itself in answering it. */
  lemma ForwardKeepsOrder(hub: Hub, e: Event, answers: Answers)
    requires Adjacent(hub.onInsert) || Consistent(hub.onInsert, |hub.calls|, answers)
    ensures Forward(hub, e, answers).onInsert == Answering(hub.onInsert, |hub.calls|, answers, true)
  {
    if Adjacent(hub.onInsert) {
      AdjacentKeepsOrder(hub.onInsert, |hub.calls|, answers);
    } else {
      TidyKeepsOrder(hub.onInsert, |hub.calls|, answers);
    }
  }

  /** A slot listed twice that answers true first and false later loses its first place:
      the order of the true answers is not kept. */
  lemma OrderLost(hub: Hub, e: Event)
    requires hub.onInsert == [1, 2, 1] && hub.calls == []
    ensures Forward(hub, e, i => i < 2).onInsert == [2, 1]
    ensures Answering(hub.onInsert, 0, i => i < 2, true) == [1, 2]
  {
    var a: Answers := i => i < 2;
    assert Answering([1], 2, a, false) == [1];
    assert Answering([2, 1], 1, a, false) == [1];
    assert Answering([1, 2, 1], 0, a, false) == [1];
    assert Reverse([1]) == [1];
    assert Tidy([1, 2, 1], [1]) == Tidy([2, 1], []);
    assert Answering([1], 2, a, true) == [];
    assert Answering([2, 1], 1, a, true) == [2];
  }
}
