/** What the in-memory table and its publisher do, as functions on values:
    rows are changed by events, events go to slots, slots replay them. */
module StoreModel {
  import opened Dom
  import opened Schema

  /** Object and key equality is equality of hashes; the hash functions stay abstract. */
  datatype Hasher = Hasher(obj: Obj -> int, key: seq<Obj> -> int) {
    predicate Same(a: Obj, b: Obj) { obj(a) == obj(b) }
    function Id(k: seq<Obj>): KeyId { KeyId(|k|, key(k)) }
  }

  /** Two keys are equal when they have the same size and the same hash. */
  datatype KeyId = KeyId(size: nat, hash: int)

  datatype Row = Row(key: seq<Obj>, data: seq<Obj>, gen: Gen)
  type Rows = map<KeyId, Row>
  type View = map<KeyId, seq<Obj>>

  datatype Event =
    | Inserted(key: seq<Obj>, data: seq<Obj>, gen: Gen)
    | Modified(key: seq<Obj>, idx: nat, value: Obj, data: seq<Obj>, gen: Gen)
    | Removed(key: seq<Obj>, data: seq<Obj>)
    | Cleared
    | Trx(begin: bool)

  /** Generations are 64-bit counters that wrap. */
  type Gen = g: nat | g < U64

  function NextGen(gen: Gen): Gen { (gen + 1) % U64 }

  // ---- rows -------------------------------------------------------------

  /** The row change an event stands for. */
  function Commit(h: Hasher, rows: Rows, e: Event): Rows {
    match e
    case Inserted(k, d, g) => rows[h.Id(k) := Row(k, d, g)]
    case Modified(k, idx, v, _, _) =>
      var id := h.Id(k);
      if id in rows then
        var r := rows[id];
        rows[id := Row(r.key, if idx < |r.data| then r.data[idx := v] else r.data, NextGen(r.gen))]
      else rows
    case Removed(k, _) => rows - {h.Id(k)}
    case Cleared => map[]
    case Trx(_) => rows
  }

  function CommitAll(h: Hasher, rows: Rows, events: seq<Event>): Rows
    decreases |events|
  {
    if events == [] then rows else CommitAll(h, Commit(h, rows, events[0]), events[1..])
  }

  lemma {:induction false} CommitAppend(h: Hasher, rows: Rows, a: seq<Event>, b: seq<Event>)
    ensures CommitAll(h, rows, a + b) == CommitAll(h, CommitAll(h, rows, a), b)
    decreases |a|
  {
    if a == [] {
      assert a + b == b;
    } else {
      assert (a + b)[1..] == a[1..] + b;
      CommitAppend(h, Commit(h, rows, a[0]), a[1..], b);
    }
  }

  /** Rows as the table keeps them: filed under their own key, as wide as the schema's body. */
  predicate WellFiled(h: Hasher, m: Meta, rows: Rows)
    requires m.Valid()
  {
    forall id :: id in rows ==> h.Id(rows[id].key) == id && |rows[id].data| == m.BodySize()
  }

  function DataOf(rows: Rows): View { map id | id in rows :: rows[id].data }

  // ---- the publisher ----------------------------------------------------

  type SlotId = nat
  /** A call made for a published event, whose answer counts, or while a slot is being charged. */
  datatype Call = Call(slot: SlotId, event: Event) | Charging(slot: SlotId, event: Event)

  /** The four slot lists, and every call made to any slot so far. */
  datatype Hub = Hub(onInsert: seq<SlotId>, onModify: seq<SlotId>, onRemove: seq<SlotId>, onClear: seq<SlotId>,
                     calls: seq<Call>)

  /** answers(n) is what the slot behind the n-th call answered. */
  type Answers = nat -> bool

  function RemoveFirst(vec: seq<SlotId>, s: SlotId): seq<SlotId> {
    if vec == [] then []
    else if vec[0] == s then vec[1..]
    else [vec[0]] + RemoveFirst(vec[1..], s)
  }

  function Tidy(vec: seq<SlotId>, expired: seq<SlotId>): seq<SlotId>
    decreases |expired|
  {
    if expired == [] then vec else Tidy(RemoveFirst(vec, expired[0]), expired[1..])
  }

  /** The slots of `vec` whose calls, numbered from `n`, were answered with `verdict`. */
  function Answering(vec: seq<SlotId>, n: nat, answers: Answers, verdict: bool): seq<SlotId> {
    if vec == [] then []
    else (if answers(n) == verdict then [vec[0]] else []) + Answering(vec[1..], n + 1, answers, verdict)
  }

  function Notify(slots: seq<SlotId>, e: Event): seq<Call> {
    seq(|slots|, i requires 0 <= i < |slots| => Call(slots[i], e))
  }

  /** All four kinds of events go to the insert list, and only that list is tidied. */
  function Forward(hub: Hub, e: Event, answers: Answers): Hub {
    hub.(onInsert := Tidy(hub.onInsert, Reverse(Answering(hub.onInsert, |hub.calls|, answers, false))),
         calls := hub.calls + Notify(hub.onInsert, e))
  }

  function ForwardAll(hub: Hub, events: seq<Event>, answers: Answers): Hub
    decreases |events|
  {
    if events == [] then hub else ForwardAll(Forward(hub, events[0], answers), events[1..], answers)
  }

  lemma {:induction false} ForwardAppend(hub: Hub, a: seq<Event>, b: seq<Event>, answers: Answers)
    ensures ForwardAll(hub, a + b, answers) == ForwardAll(ForwardAll(hub, a, answers), b, answers)
    decreases |a|
  {
    if a == [] {
      assert a + b == b;
    } else {
      assert (a + b)[1..] == a[1..] + b;
      ForwardAppend(Forward(hub, a[0], answers), a[1..], b, answers);
    }
  }

  /** A new subscriber gets every row as an insert, framed by a transaction. */
  function ChargeCalls(s: SlotId, rows: Rows, order: seq<KeyId>): seq<Call>
    requires forall i :: 0 <= i < |order| ==> order[i] in rows
  {
    [Charging(s, Trx(true))] + RowCalls(s, rows, order) + [Charging(s, Trx(false))]
  }

  function RowCalls(s: SlotId, rows: Rows, order: seq<KeyId>): seq<Call>
    requires forall i :: 0 <= i < |order| ==> order[i] in rows
  {
    seq(|order|, i requires 0 <= i < |order| =>
      var r := rows[order[i]]; Charging(s, Inserted(r.key, r.data, r.gen)))
  }

  function ConnectOnly(hub: Hub, s: SlotId): Hub {
    hub.(onInsert := hub.onInsert + [s], onModify := hub.onModify + [s],
         onRemove := hub.onRemove + [s], onClear := hub.onClear + [s])
  }

  function Disconnect(hub: Hub, s: SlotId): Hub {
    hub.(onInsert := RemoveFirst(hub.onInsert, s), onModify := RemoveFirst(hub.onModify, s),
         onRemove := RemoveFirst(hub.onRemove, s), onClear := RemoveFirst(hub.onClear, s))
  }

  // ---- the operations ---------------------------------------------------

  datatype Store = Store(rows: Rows, hub: Hub, log: seq<Event>)

  datatype Request =
    | Insert(key: seq<Obj>, data: seq<Obj>, gen: Gen)
    | Merge(key: seq<Obj>, data: seq<Obj>, gen: Gen)
    | Modify(key: seq<Obj>, idx: nat, value: Obj)
    | ModifyAll(key: seq<Obj>, attrs: seq<(nat, Obj)>)
    | Compute(key: seq<Obj>, idx: nat, fn: Obj -> Obj)
    | Erase(key: seq<Obj>)
    | EraseIf(pred: Row -> bool, order: seq<KeyId>)
    | Clear
    | Connect(slot: SlotId, order: seq<KeyId>)
    | ConnectOnlyTo(slot: SlotId)
    | DisconnectFrom(slot: SlotId)

  /** The columns in which `data` differs from the row, in rising order. */
  function UpdateEvents(h: Hasher, key: seq<Obj>, cur: seq<Obj>, gen: Gen, data: seq<Obj>, idx: nat): seq<Event>
    requires |cur| == |data| && idx <= |data|
    decreases |data| - idx
  {
    if idx == |data| then []
    else if !h.Same(cur[idx], data[idx]) then
      var next := cur[idx := data[idx]];
      [Modified(key, idx, data[idx], next, NextGen(gen))] + UpdateEvents(h, key, next, NextGen(gen), data, idx + 1)
    else UpdateEvents(h, key, cur, gen, data, idx + 1)
  }

  function ModifyEvents(h: Hasher, key: seq<Obj>, cur: seq<Obj>, gen: Gen, attrs: seq<(nat, Obj)>): seq<Event>
    decreases |attrs|
  {
    if attrs == [] then []
    else
      var (idx, v) := attrs[0];
      if idx < |cur| && !h.Same(cur[idx], v) then
        [Modified(key, idx, v, cur, gen)] + ModifyEvents(h, key, cur[idx := v], NextGen(gen), attrs[1..])
      else ModifyEvents(h, key, cur, gen, attrs[1..])
  }

  function EraseEvents(rows: Rows, pred: Row -> bool, order: seq<KeyId>): seq<Event>
    requires forall i :: 0 <= i < |order| ==> order[i] in rows
  {
    if order == [] then [] else EraseEvent(rows[order[0]], pred) + EraseEvents(rows, pred, order[1..])
  }

  function EraseEvent(r: Row, pred: Row -> bool): seq<Event> {
    if pred(r) then [Removed(r.key, r.data)] else []
  }

  ghost predicate Enabled(rows: Rows, op: Request) {
    match op
    case EraseIf(_, order) => Enumerates(order, rows.Keys)
    case Connect(_, order) => Enumerates(order, rows.Keys)
    case _ => true
  }

  /** The events an operation publishes. */
  function EventsOf(h: Hasher, m: Meta, rows: Rows, op: Request): seq<Event>
    requires m.Valid() && WellFiled(h, m, rows)
    requires op.EraseIf? ==> forall i :: 0 <= i < |op.order| ==> op.order[i] in rows
  {
    match op
    case Insert(k, d, g) =>
      if m.CheckIntegrity(k, d) && h.Id(k) !in rows then [Inserted(k, d, g)] else []
    case Merge(k, d, g) =>
      if !m.CheckIntegrity(k, d) then []
      else if h.Id(k) !in rows then [Inserted(k, d, g)]
      else UpdateEvents(h, k, rows[h.Id(k)].data, rows[h.Id(k)].gen, d, 0)
    case Modify(k, idx, v) =>
      if h.Id(k) in rows then ModifyEvents(h, k, rows[h.Id(k)].data, rows[h.Id(k)].gen, [(idx, v)]) else []
    case ModifyAll(k, attrs) =>
      if h.Id(k) in rows then ModifyEvents(h, k, rows[h.Id(k)].data, rows[h.Id(k)].gen, attrs) else []
    case Compute(k, idx, fn) =>
      if h.Id(k) in rows && idx < |rows[h.Id(k)].data| then
        ModifyEvents(h, k, rows[h.Id(k)].data, rows[h.Id(k)].gen, [(idx, fn(rows[h.Id(k)].data[idx]))])
      else []
    case Erase(k) => if h.Id(k) in rows then [Removed(k, rows[h.Id(k)].data)] else []
    case EraseIf(pred, order) => EraseEvents(rows, pred, order)
    case Clear => [Cleared]
    case _ => []
  }

  function Publish(h: Hasher, st: Store, events: seq<Event>, answers: Answers): Store {
    Store(CommitAll(h, st.rows, events), ForwardAll(st.hub, events, answers), st.log + events)
  }

  function Step(h: Hasher, m: Meta, answers: Answers, st: Store, op: Request): Store
    requires m.Valid() && WellFiled(h, m, st.rows)
    requires (op.EraseIf? || op.Connect?) ==> forall i :: 0 <= i < |op.order| ==> op.order[i] in st.rows
  {
    match op
    case Connect(s, order) =>
      var hub := ConnectOnly(st.hub, s);
      st.(hub := hub.(calls := hub.calls + ChargeCalls(s, st.rows, order)))
    case ConnectOnlyTo(s) => st.(hub := ConnectOnly(st.hub, s))
    case DisconnectFrom(s) => st.(hub := Disconnect(st.hub, s))
    case _ => Publish(h, st, EventsOf(h, m, st.rows, op), answers)
  }
}
