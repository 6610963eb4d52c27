/** The publisher and the table as objects that change in place; each method is proved
    against the operations of StoreModel. */
module Table {
  import opened Dom
  import opened Schema
  import opened StoreModel
  import opened StoreReplicas
  import opened StoreRows

  class Pub {
    /** What the slot behind the n-th call answers. */
    const answers: Answers
    var onInsert: seq<SlotId>
    var onModify: seq<SlotId>
    var onRemove: seq<SlotId>
    var onClear: seq<SlotId>
    /** Every call made to a slot so far. */
    var calls: seq<Call>

    constructor (answers: Answers)
      ensures this.answers == answers && State() == Hub([], [], [], [], [])
    {
      this.answers := answers;
      onInsert, onModify, onRemove, onClear, calls := [], [], [], [], [];
    }

    function State(): Hub
      reads this
    {
      Hub(onInsert, onModify, onRemove, onClear, calls)
    }

    /** Calls one slot and hands back its answer. */
    method Notify(s: SlotId, e: Event) returns (alive: bool)
      modifies this`calls
      ensures calls == old(calls) + [Call(s, e)] && alive == answers(|old(calls)|)
    {
      alive := answers(|calls|);
      calls := calls + [Call(s, e)];
    }

    /** Calls a slot that is being charged; its answer is not looked at. */
    method Charge(s: SlotId, e: Event)
      modifies this`calls
      ensures calls == old(calls) + [Charging(s, e)]
    {
      calls := calls + [Charging(s, e)];
    }

    /** The one loop behind all four kinds of events. */
    method Forward(e: Event)
      modifies this
      ensures State() == StoreModel.Forward(old(State()), e, answers)
    {
      var expired: seq<SlotId> := [];
      ghost var n := |calls|;
      var i := 0;
      while i < |onInsert|
        invariant i <= |onInsert|
        invariant State() == old(State()).(calls := old(calls) + StoreModel.Notify(onInsert[..i], e))
        invariant expired == Reverse(Answering(onInsert[..i], n, answers, false))
      {
        ghost var asked := onInsert[..i];
        var alive := Notify(onInsert[i], e);
        AskOne(onInsert, i, e, n, answers);
        assert old(calls) + (StoreModel.Notify(asked, e) + [Call(onInsert[i], e)])
            == (old(calls) + StoreModel.Notify(asked, e)) + [Call(onInsert[i], e)];
        if !alive {
          expired := [onInsert[i]] + expired;
        }
        i := i + 1;
      }
      assert onInsert[..i] == onInsert;
      onInsert := TidyList(onInsert, expired);
    }

    static method TidyList(vec: seq<SlotId>, expired: seq<SlotId>) returns (r: seq<SlotId>)
      ensures r == Tidy(vec, expired)
    {
      r := vec;
      var i := 0;
      while i < |expired|
        invariant i <= |expired|
        invariant Tidy(vec, expired) == Tidy(r, expired[i..])
      {
        var found;
        r, found := DisconnectOne(r, expired[i]);
        assert expired[i..][1..] == expired[i + 1..];
        i := i + 1;
      }
    }

    static method DisconnectOne(vec: seq<SlotId>, s: SlotId) returns (r: seq<SlotId>, found: bool)
      ensures r == RemoveFirst(vec, s) && found == (s in vec)
    {
      var pos := 0;
      while pos < |vec| && vec[pos] != s
        invariant pos <= |vec| && s !in vec[..pos]
        invariant RemoveFirst(vec, s) == vec[..pos] + RemoveFirst(vec[pos..], s)
      {
        assert vec[pos..][1..] == vec[pos + 1..];
        assert vec[..pos + 1] == vec[..pos] + [vec[pos]];
        pos := pos + 1;
      }
      if pos < |vec| {
        assert vec[pos..][1..] == vec[pos + 1..];
        return vec[..pos] + vec[pos + 1..], true;
      }
      return vec, false;
    }

    method ConnectOnly(s: SlotId)
      modifies this
      ensures State() == StoreModel.ConnectOnly(old(State()), s)
    {
      onInsert := onInsert + [s];
      onModify := onModify + [s];
      onRemove := onRemove + [s];
      onClear := onClear + [s];
    }

    method Disconnect(s: SlotId) returns (active: bool)
      modifies this
      ensures State() == StoreModel.Disconnect(old(State()), s) && active == (s in old(onInsert))
    {
      var found;
      onModify, found := DisconnectOne(onModify, s);
      onRemove, found := DisconnectOne(onRemove, s);
      onClear, found := DisconnectOne(onClear, s);
      onInsert, active := DisconnectOne(onInsert, s);
    }
  }

  /** One more slot is asked: one call more, and one expired slot more in front if it says no. */
  lemma AskOne(vec: seq<SlotId>, i: nat, e: Event, n: nat, answers: Answers)
    requires i < |vec|
    ensures StoreModel.Notify(vec[..i + 1], e) == StoreModel.Notify(vec[..i], e) + [Call(vec[i], e)]
    ensures Reverse(Answering(vec[..i + 1], n, answers, false)) ==
      (if answers(n + i) then [] else [vec[i]]) + Reverse(Answering(vec[..i], n, answers, false))
  {
    var dead := Answering(vec[..i], n, answers, false);
    assert vec[..i + 1] == vec[..i] + [vec[i]];
    AnsweringSnoc(vec[..i], vec[i], n, answers, false);
    ReverseSnoc(dead, vec[i]);
    assert dead + [] == dead && [] + Reverse(dead) == Reverse(dead);
  }

  lemma {:induction false} ModifyOne(h: Hasher, key: seq<Obj>, cur: seq<Obj>, gen: Gen, idx: nat, v: Obj)
    ensures ModifyEvents(h, key, cur, gen, [(idx, v)]) ==
      if idx < |cur| && !h.Same(cur[idx], v) then [Modified(key, idx, v, cur, gen)] else []
  {
  }

  /** The result of an operation that indexes into a row: std::vector::at throws. */
  datatype Outcome = Done(changed: bool) | OutOfRange

  lemma PublishOne(h: Hasher, st: Store, events: seq<Event>, e: Event, answers: Answers)
    ensures var was := Publish(h, st, events, answers);
      Publish(h, st, events + [e], answers)
        == Store(Commit(h, was.rows, e), Forward(was.hub, e, answers), was.log + [e])
  {
    CommitAppend(h, st.rows, events, [e]);
    ForwardAppend(st.hub, events, [e], answers);
    var was := Publish(h, st, events, answers);
    assert CommitAll(h, was.rows, [e]) == CommitAll(h, Commit(h, was.rows, e), []);
    assert ForwardAll(was.hub, [e], answers) == ForwardAll(Forward(was.hub, e, answers), [], answers);
    assert st.log + (events + [e]) == (st.log + events) + [e];
  }

  lemma PublishFew(h: Hasher, st: Store, answers: Answers)
    ensures Publish(h, st, [], answers) == st
    ensures forall e ::
      Publish(h, st, [e], answers) == Store(Commit(h, st.rows, e), Forward(st.hub, e, answers), st.log + [e])
  {
    assert st.log + [] == st.log;
    forall e ensures Publish(h, st, [e], answers)
      == Store(Commit(h, st.rows, e), Forward(st.hub, e, answers), st.log + [e])
    {
      PublishOne(h, st, [], e, answers);
      assert [] + [e] == [e];
    }
  }

  lemma {:induction false} EraseEventsSnoc(rows: Rows, pred: Row -> bool, order: seq<KeyId>, id: KeyId)
    requires id in rows && forall i :: 0 <= i < |order| ==> order[i] in rows
    ensures EraseEvents(rows, pred, order + [id]) == EraseEvents(rows, pred, order) + EraseEvent(rows[id], pred)
    decreases |order|
  {
    if order == [] {
      assert order + [id] == [id];
      assert EraseEvents(rows, pred, []) == [];
      assert EraseEvents(rows, pred, [id]) == EraseEvent(rows[id], pred) + EraseEvents(rows, pred, []);
    } else {
      assert (order + [id])[1..] == order[1..] + [id];
      EraseEventsSnoc(rows, pred, order[1..], id);
      var first, last := EraseEvent(rows[order[0]], pred), EraseEvent(rows[id], pred);
      var rest := EraseEvents(rows, pred, order[1..]);
      assert (first + rest) + last == first + (rest + last);
    }
  }

  /** Of the update's events, `done` are published and the rest follows from the row as it is. */
  ghost predicate UpdateLeft(h: Hasher, all: seq<Event>, done: seq<Event>, key: seq<Obj>, r: Row, data: seq<Obj>,
                             idx: nat) {
    |r.data| == |data| && idx <= |data| && all == done + UpdateEvents(h, key, r.data, r.gen, data, idx)
  }

  lemma UpdateLeftStep(h: Hasher, all: seq<Event>, done: seq<Event>, key: seq<Obj>, r: Row, data: seq<Obj>, idx: nat)
    requires UpdateLeft(h, all, done, key, r, data, idx) && idx < |data|
    ensures if h.Same(r.data[idx], data[idx]) then UpdateLeft(h, all, done, key, r, data, idx + 1)
      else
        var next := r.data[idx := data[idx]];
        UpdateLeft(h, all, done + [Modified(key, idx, data[idx], next, NextGen(r.gen))], key,
          Row(r.key, next, NextGen(r.gen)), data, idx + 1)
  {
  }

  /** Where an erase_if pass stands: the rows in `order` were looked at, those in `todo` not yet. */
  ghost predicate Passed(h: Hasher, answers: Answers, st: Store, pred: Row -> bool, order: seq<KeyId>, todo: set<KeyId>,
                         now: Store, count: nat)
  {
    && todo <= st.rows.Keys && Enumerates(order, st.rows.Keys - todo)
    && now == Publish(h, st, EraseEvents(st.rows, pred, order), answers)
    && count == |EraseEvents(st.rows, pred, order)|
    && forall id :: id in todo ==> id in now.rows && now.rows[id] == st.rows[id]
  }

  lemma PassedStep(h: Hasher, answers: Answers, st: Store, pred: Row -> bool, order: seq<KeyId>, todo: set<KeyId>,
                   now: Store, count: nat, id: KeyId)
    requires Passed(h, answers, st, pred, order, todo, now, count) && id in todo
    requires forall x :: x in st.rows ==> h.Id(st.rows[x].key) == x
    ensures var r := st.rows[id]; var e := Removed(r.key, r.data);
      if pred(r) then
        Passed(h, answers, st, pred, order + [id], todo - {id},
               Store(now.rows - {id}, Forward(now.hub, e, answers), now.log + [e]), count + 1)
      else Passed(h, answers, st, pred, order + [id], todo - {id}, now, count)
  {
    var r := st.rows[id];
    var evs := EraseEvents(st.rows, pred, order);
    EraseEventsSnoc(st.rows, pred, order, id);
    assert st.rows.Keys - (todo - {id}) == st.rows.Keys - todo + {id};
    if pred(r) {
      PublishOne(h, st, evs, Removed(r.key, r.data), answers);
    } else {
      assert evs + [] == evs;
    }
  }

  lemma PassedAll(h: Hasher, m: Meta, answers: Answers, st: Store, pred: Row -> bool, order: seq<KeyId>, now: Store,
                  count: nat)
    requires m.Valid() && WellFiled(h, m, st.rows) && Passed(h, answers, st, pred, order, {}, now, count)
    ensures Taken(h, m, answers, st, Request.EraseIf(pred, order), now)
      && count == |Chosen(st.rows, pred, st.rows.Keys)|
  {
    assert st.rows.Keys - {} == st.rows.Keys;
    EraseIfLaw(h, m, st.rows, pred, order);
  }

  /** Insertion into the attribute map: sorted by index, an index already there wins. */
  function AddAttr(attrs: seq<(nat, Obj)>, a: (nat, Obj)): (r: seq<(nat, Obj)>)
    requires Rising(attrs)
    ensures Rising(r)
    ensures forall x :: x in r <==> x in attrs || (x == a && !Names(attrs, a.0))
  {
    if attrs == [] then [a]
    else if a.0 < attrs[0].0 then [a] + attrs
    else if a.0 == attrs[0].0 then attrs
    else
      var rest := AddAttr(attrs[1..], a);
      NamesTail(attrs, a.0);
      assert forall x :: x in attrs[1..] ==> attrs[0].0 < x.0;
      assert forall x :: x in attrs <==> x == attrs[0] || x in attrs[1..];
      assert forall x :: x in rest ==> attrs[0].0 < x.0;
      [attrs[0]] + rest
  }

  /** Parameters by name become attributes by index; of two that land on one index the first stays. */
  function ToAttrs(m: Meta, params: seq<(string, Obj)>): (attrs: seq<(nat, Obj)>)
    requires m.Valid()
    ensures Rising(attrs)
    decreases |params|
  {
    if params == [] then []
    else
      var n := |params| - 1;
      AddAttr(ToAttrs(m, params[..n]), (m.BodyIndexByName(params[n].0), params[n].1))
  }

  ghost predicate NamesBefore(attrs: seq<(nat, Obj)>, n: nat, i: nat)
    requires n <= |attrs|
  {
    exists j :: 0 <= j < n && attrs[j].0 == i
  }

  lemma NamesMore(attrs: seq<(nat, Obj)>, n: nat, i: nat)
    requires n < |attrs|
    ensures NamesBefore(attrs, n + 1, i) <==> NamesBefore(attrs, n, i) || attrs[n].0 == i
  {
  }

  /** Some parameter has this body index. */
  ghost predicate ParamAt(m: Meta, params: seq<(string, Obj)>, i: nat)
    requires m.Valid()
  {
    exists j :: 0 <= j < |params| && m.BodyIndexByName(params[j].0) == i
  }

  lemma ParamAtMore(m: Meta, params: seq<(string, Obj)>, i: nat)
    requires m.Valid() && params != []
    ensures ParamAt(m, params, i) <==>
      ParamAt(m, params[..|params| - 1], i) || m.BodyIndexByName(params[|params| - 1].0) == i
  {
    var init := params[..|params| - 1];
    assert forall j :: 0 <= j < |init| ==> init[j] == params[j];
    if j :| 0 <= j < |init| && m.BodyIndexByName(init[j].0) == i {
      assert m.BodyIndexByName(params[j].0) == i;
    }
    if j :| 0 <= j < |params| && m.BodyIndexByName(params[j].0) == i {
      assert j < |init| ==> m.BodyIndexByName(init[j].0) == i;
    }
  }

  /** The attributes have exactly the indices of the parameters. */
  lemma {:induction false} ToAttrsNames(m: Meta, params: seq<(string, Obj)>, i: nat)
    requires m.Valid()
    ensures Names(ToAttrs(m, params), i) <==> ParamAt(m, params, i)
    decreases |params|
  {
    if params != [] {
      var n := |params| - 1;
      ToAttrsNames(m, params[..n], i);
      ParamAtMore(m, params, i);
      AddAttrNames(ToAttrs(m, params[..n]), (m.BodyIndexByName(params[n].0), params[n].1), i);
    }
  }

  /** Later parameters leave the attributes of earlier ones as they are. */
  lemma {:induction false} ToAttrsKeeps(m: Meta, params: seq<(string, Obj)>, n: nat, x: (nat, Obj))
    requires m.Valid() && n <= |params| && x in ToAttrs(m, params[..n])
    ensures x in ToAttrs(m, params)
    decreases |params|
  {
    if n == |params| {
      assert params[..n] == params;
    } else {
      assert params[..|params| - 1][..n] == params[..n];
      ToAttrsKeeps(m, params[..|params| - 1], n, x);
    }
  }

  /** Of the parameters with one index, the first gives the attribute its value. */
  lemma ToAttrsFirst(m: Meta, params: seq<(string, Obj)>, j: nat)
    requires m.Valid() && j < |params|
    requires !ParamAt(m, params[..j], m.BodyIndexByName(params[j].0))
    ensures (m.BodyIndexByName(params[j].0), params[j].1) in ToAttrs(m, params)
  {
    var x := (m.BodyIndexByName(params[j].0), params[j].1);
    ToAttrsNames(m, params[..j], x.0);
    assert params[..j + 1][..j] == params[..j];
    assert x in ToAttrs(m, params[..j + 1]);
    ToAttrsKeeps(m, params, j + 1, x);
  }

  lemma AddAttrNames(attrs: seq<(nat, Obj)>, a: (nat, Obj), i: nat)
    requires Rising(attrs)
    ensures Names(AddAttr(attrs, a), i) <==> Names(attrs, i) || a.0 == i
  {
    var r := AddAttr(attrs, a);
    if Names(r, i) {
      var j :| 0 <= j < |r| && r[j].0 == i;
      assert r[j] in r;
    }
    if Names(attrs, i) {
      var j :| 0 <= j < |attrs| && attrs[j].0 == i;
      assert attrs[j] in r;
    }
    if a.0 == i && !Names(attrs, a.0) {
      assert a in r;
    }
  }

  class Table {
    const h: Hasher
    const m: Meta
    const pub: Pub
    var rows: Rows
    /** Every event published so far. */
    ghost var log: seq<Event>

    constructor (h: Hasher, m: Meta, pub: Pub)
      requires m.Valid()
      ensures Valid() && this.h == h && this.m == m && this.pub == pub
      ensures Abs() == Store(map[], pub.State(), [])
    {
      this.h, this.m, this.pub := h, m, pub;
      rows, log := map[], [];
    }

    ghost predicate Valid()
      reads this
    {
      m.Valid() && WellFiled(h, m, rows)
    }

    ghost function Abs(): Store
      reads this, pub
    {
      Store(rows, pub.State(), log)
    }

    ghost predicate Took(st: Store, op: Request)
      requires m.Valid()
      reads this, pub
    {
      Taken(h, m, pub.answers, st, op, Abs())
    }

    method Emit(e: Event)
      modifies this`log, pub
      ensures pub.State() == Forward(old(pub.State()), e, pub.answers) && log == old(log) + [e]
    {
      pub.Forward(e);
      log := log + [e];
    }

    method Clear()
      requires Valid()
      modifies this, pub
      ensures Valid() && Took(old(Abs()), Request.Clear)
    {
      PublishFew(h, Abs(), pub.answers);
      rows := map[];
      Emit(Cleared);
    }

    method Insert(key: seq<Obj>, data: seq<Obj>, gen: Gen) returns (inserted: bool)
      requires Valid()
      modifies this, pub
      ensures Valid() && Took(old(Abs()), Request.Insert(key, data, gen))
      ensures inserted == (m.CheckIntegrity(key, data) && h.Id(key) !in old(rows))
    {
      PublishFew(h, Abs(), pub.answers);
      if m.CheckIntegrity(key, data) {
        if h.Id(key) !in rows {
          rows := rows[h.Id(key) := Row(key, data, gen)];
          Emit(Inserted(key, data, gen));
          return true;
        }
      }
      return false;
    }

    /** True only for an insertion; false when an existing row was updated. */
    method Merge(key: seq<Obj>, data: seq<Obj>, gen: Gen) returns (inserted: bool)
      requires Valid()
      modifies this, pub
      ensures Valid() && Took(old(Abs()), Request.Merge(key, data, gen))
      ensures inserted == (m.CheckIntegrity(key, data) && h.Id(key) !in old(rows))
    {
      PublishFew(h, Abs(), pub.answers);
      if m.CheckIntegrity(key, data) {
        if h.Id(key) !in rows {
          rows := rows[h.Id(key) := Row(key, data, gen)];
          Emit(Inserted(key, data, gen));
          return true;
        } else {
          Update(key, data);
        }
      }
      return false;
    }

    /** Applies the change first, then publishes it with the new data and generation;
        the old object is swapped out. */
    method OverwriteColumn(key: seq<Obj>, idx: nat, value: Obj) returns (was: Obj)
      requires Valid() && h.Id(key) in rows && idx < |rows[h.Id(key)].data|
      modifies this, pub
      ensures Valid() && h.Id(key) in rows && was == old(rows)[h.Id(key)].data[idx]
      ensures var r := old(rows)[h.Id(key)];
        var e := Modified(key, idx, value, r.data[idx := value], NextGen(r.gen));
        Abs() == Store(Commit(h, old(rows), e), Forward(old(pub.State()), e, pub.answers), old(log) + [e])
    {
      var id := h.Id(key);
      was := rows[id].data[idx];
      var r := Row(rows[id].key, rows[id].data[idx := value], NextGen(rows[id].gen));
      rows := rows[id := r];
      Emit(Modified(key, idx, r.data[idx], r.data, r.gen));
    }

    method Update(key: seq<Obj>, data: seq<Obj>)
      requires Valid() && m.CheckIntegrity(key, data) && h.Id(key) in rows
      modifies this, pub
      ensures Valid()
      ensures var r := old(rows)[h.Id(key)];
        Abs() == Publish(h, old(Abs()), UpdateEvents(h, key, r.data, r.gen, data, 0), pub.answers)
    {
      var id := h.Id(key);
      var d := data;
      ghost var all := UpdateEvents(h, key, rows[id].data, rows[id].gen, data, 0);
      ghost var done: seq<Event> := [];
      ghost var st := Abs();
      PublishFew(h, st, pub.answers);
      for idx := 0 to |data|
        invariant Valid() && id in rows && |d| == |data|
        invariant forall i :: idx <= i < |data| ==> d[i] == data[i]
        invariant Abs() == Publish(h, st, done, pub.answers)
        invariant UpdateLeft(h, all, done, key, rows[id], data, idx)
      {
        ghost var r := rows[id];
        UpdateLeftStep(h, all, done, key, r, data, idx);
        if !h.Same(rows[id].data[idx], d[idx]) {
          ghost var e := Modified(key, idx, d[idx], r.data[idx := d[idx]], NextGen(r.gen));
          PublishOne(h, st, done, e, pub.answers);
          var rest := OverwriteColumn(key, idx, d[idx]);
          d := d[idx := rest];
          done := done + [e];
        }
      }
      assert done + [] == done;
    }

    /** Publishes the change with the old data and generation, then applies it. */
    method ModifyColumn(key: seq<Obj>, idx: nat, value: Obj)
      requires Valid() && h.Id(key) in rows && idx < |rows[h.Id(key)].data|
      modifies this, pub
      ensures Valid() && h.Id(key) in rows
      ensures var was := old(rows)[h.Id(key)];
        var e := Modified(key, idx, value, was.data, was.gen);
        Abs() == Store(Commit(h, old(rows), e), Forward(old(pub.State()), e, pub.answers), old(log) + [e])
    {
      var id := h.Id(key);
      var r := rows[id];
      Emit(Modified(key, idx, value, r.data, r.gen));
      rows := rows[id := Row(r.key, r.data[idx := value], NextGen(r.gen))];
    }

    method Modify(key: seq<Obj>, idx: nat, value: Obj) returns (r: Outcome)
      requires Valid()
      modifies this, pub
      ensures Valid() && Took(old(Abs()), Request.Modify(key, idx, value))
      ensures r == if h.Id(key) !in old(rows) then Done(false)
                   else if |old(rows)[h.Id(key)].data| <= idx then OutOfRange
                   else Done(!h.Same(old(rows)[h.Id(key)].data[idx], value))
    {
      PublishFew(h, Abs(), pub.answers);
      if h.Id(key) !in rows { return Done(false); }
      var row := rows[h.Id(key)];
      ModifyOne(h, key, row.data, row.gen, idx, value);
      if |row.data| <= idx { return OutOfRange; }
      if !h.Same(row.data[idx], value) {
        ModifyColumn(key, idx, value);
        return Done(true);
      }
      return Done(false);
    }

    method Compute(key: seq<Obj>, idx: nat, fn: Obj -> Obj) returns (r: Outcome)
      requires Valid()
      modifies this, pub
      ensures Valid() && Took(old(Abs()), Request.Compute(key, idx, fn))
      ensures r == if h.Id(key) !in old(rows) then Done(false)
                   else if |old(rows)[h.Id(key)].data| <= idx then OutOfRange
                   else Done(!h.Same(old(rows)[h.Id(key)].data[idx], fn(old(rows)[h.Id(key)].data[idx])))
    {
      PublishFew(h, Abs(), pub.answers);
      if h.Id(key) !in rows { return Done(false); }
      var row := rows[h.Id(key)];
      if |row.data| <= idx { return OutOfRange; }
      var value := fn(row.data[idx]);
      ModifyOne(h, key, row.data, row.gen, idx, value);
      if !h.Same(row.data[idx], value) {
        ModifyColumn(key, idx, value);
        return Done(true);
      }
      return Done(false);
    }

    /** Asserts exactly when the row exists and an attribute has the largest index. */
    method ModifyAll(key: seq<Obj>, attrs: seq<(nat, Obj)>) returns (found: bool, asserts: bool)
      requires Valid()
      modifies this, pub
      ensures Valid() && Took(old(Abs()), Request.ModifyAll(key, attrs)) && found == (h.Id(key) in old(rows))
      ensures asserts <==> found && Names(attrs, NPOS)
    {
      PublishFew(h, Abs(), pub.answers);
      found, asserts := h.Id(key) in rows, false;
      if found {
        asserts := ApplyAttrs(key, attrs);
      }
    }

    method ApplyAttrs(key: seq<Obj>, attrs: seq<(nat, Obj)>) returns (asserts: bool)
      requires Valid() && h.Id(key) in rows
      modifies this, pub
      ensures Valid()
      ensures var r := old(rows)[h.Id(key)];
        Abs() == Publish(h, old(Abs()), ModifyEvents(h, key, r.data, r.gen, attrs), pub.answers)
      ensures asserts <==> Names(attrs, NPOS)
    {
      asserts := false;
      var id := h.Id(key);
      ghost var all := ModifyEvents(h, key, rows[id].data, rows[id].gen, attrs);
      ghost var done: seq<Event> := [];
      ghost var st := Abs();
      PublishFew(h, st, pub.answers);
      for i := 0 to |attrs|
        invariant Valid() && id in rows
        invariant Abs() == Publish(h, st, done, pub.answers)
        invariant all == done + ModifyEvents(h, key, rows[id].data, rows[id].gen, attrs[i..])
        invariant asserts <==> NamesBefore(attrs, i, NPOS)
      {
        var (idx, v) := attrs[i];
        NamesMore(attrs, i, NPOS);
        asserts := asserts || idx == NPOS;
        assert attrs[i..][1..] == attrs[i + 1..];
        if idx < m.BodySize() && !h.Same(rows[id].data[idx], v) {
          ghost var e := Modified(key, idx, v, rows[id].data, rows[id].gen);
          PublishOne(h, st, done, e, pub.answers);
          ModifyColumn(key, idx, v);
          done := done + [e];
        }
      }
      assert done + [] == done;
    }

    method ModifyParam(key: seq<Obj>, name: string, value: Obj) returns (r: Outcome)
      requires Valid()
      modifies this, pub
      ensures Valid() && Took(old(Abs()), Request.Modify(key, m.BodyIndexByName(name), value))
      ensures r == if h.Id(key) !in old(rows) then Done(false)
                   else if m.BodySize() <= m.BodyIndexByName(name) then OutOfRange
                   else Done(!h.Same(old(rows)[h.Id(key)].data[m.BodyIndexByName(name)], value))
    {
      r := Modify(key, m.BodyIndexByName(name), value);
    }

    /** Asserts exactly when the row exists and some name is unknown or names the last key column. */
    method ModifyParams(key: seq<Obj>, params: seq<(string, Obj)>) returns (found: bool, asserts: bool)
      requires Valid()
      modifies this, pub
      ensures Valid() && Took(old(Abs()), Request.ModifyAll(key, ToAttrs(m, params)))
      ensures found == (h.Id(key) in old(rows))
      ensures asserts <==> found && exists j ::
        0 <= j < |params| && (m.IndexByName(params[j].0) == NPOS || m.IndexByName(params[j].0) + 1 == m.pk)
    {
      var attrs: seq<(nat, Obj)> := [];
      for i := 0 to |params|
        invariant attrs == ToAttrs(m, params[..i])
      {
        assert params[..i + 1][..i] == params[..i];
        attrs := AddAttr(attrs, (m.BodyIndexByName(params[i].0), params[i].1));
      }
      assert params[..|params|] == params;
      ToAttrsNames(m, params, NPOS);
      forall j | 0 <= j < |params|
        ensures m.BodyIndexByName(params[j].0) == NPOS <==>
          m.IndexByName(params[j].0) == NPOS || m.IndexByName(params[j].0) + 1 == m.pk
      {
        BodyIndexNpos(m, params[j].0);
      }
      found, asserts := ModifyAll(key, attrs);
    }

    method Erase(key: seq<Obj>) returns (erased: bool)
      requires Valid()
      modifies this, pub
      ensures Valid() && Took(old(Abs()), Request.Erase(key)) && erased == (h.Id(key) in old(rows))
    {
      PublishFew(h, Abs(), pub.answers);
      if h.Id(key) !in rows { return false; }
      Emit(Removed(key, rows[h.Id(key)].data));
      rows := rows - {h.Id(key)};
      return true;
    }

    /** Walks the rows in an unspecified order, erasing while it goes. */
    method EraseIf(pred: Row -> bool) returns (count: nat, ghost order: seq<KeyId>)
      requires Valid()
      modifies this, pub
      ensures Valid() && Took(old(Abs()), Request.EraseIf(pred, order))
      ensures count == |Chosen(old(rows), pred, old(rows).Keys)|
    {
      count, order := 0, [];
      ghost var st := Abs();
      PublishFew(h, st, pub.answers);
      var todo := rows.Keys;
      while todo != {}
        invariant Valid() && Passed(h, pub.answers, st, pred, order, todo, Abs(), count)
      {
        var id :| id in todo;
        PassedStep(h, pub.answers, st, pred, order, todo, Abs(), count, id);
        if pred(rows[id]) {
          EraseRow(id);
          count := count + 1;
        }
        order, todo := order + [id], todo - {id};
      }
      PassedAll(h, m, pub.answers, st, pred, order, Abs(), count);
    }

    method EraseRow(id: KeyId)
      requires Valid() && id in rows
      modifies this, pub
      ensures Valid()
      ensures var e := Removed(old(rows)[id].key, old(rows)[id].data);
        Abs() == Store(old(rows) - {id}, Forward(old(pub.State()), e, pub.answers), old(log) + [e])
    {
      Emit(Removed(rows[id].key, rows[id].data));
      rows := rows - {id};
    }

    /** Sends all rows to one slot, framed by a transaction; its answers are ignored. */
    method Charge(s: SlotId) returns (ghost order: seq<KeyId>)
      requires Valid()
      modifies pub`calls
      ensures Enumerates(order, rows.Keys)
      ensures pub.calls == old(pub.calls) + ChargeCalls(s, rows, order)
    {
      pub.Charge(s, Trx(true));
      ghost var before := pub.calls;
      order := [];
      var todo := rows.Keys;
      while todo != {}
        invariant todo <= rows.Keys && Enumerates(order, rows.Keys - todo)
        invariant pub.calls == before + RowCalls(s, rows, order)
      {
        var id :| id in todo;
        var r := rows[id];
        pub.Charge(s, Inserted(r.key, r.data, r.gen));
        assert RowCalls(s, rows, order + [id])
          == RowCalls(s, rows, order) + [Charging(s, Inserted(r.key, r.data, r.gen))];
        order, todo := order + [id], todo - {id};
      }
      assert rows.Keys - todo == rows.Keys;
      pub.Charge(s, Trx(false));
    }

    method Connect(s: SlotId) returns (ghost order: seq<KeyId>)
      requires Valid()
      modifies pub
      ensures Valid() && Took(old(Abs()), Request.Connect(s, order))
    {
      pub.ConnectOnly(s);
      order := Charge(s);
    }

    method Disconnect(s: SlotId) returns (active: bool)
      requires Valid()
      modifies pub
      ensures Valid() && Took(old(Abs()), DisconnectFrom(s)) && active == (s in old(pub.onInsert))
    {
      active := pub.Disconnect(s);
    }
  }
}
