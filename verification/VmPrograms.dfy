/** Programs for the stack machine: building values, the binary serializer's stream. */
module VmPrograms {
  import opened Dom
  import opened OpCodes
  import opened VmModel

  function MakeListOp(kind: ListKind): Op {
    match kind case Tuple => MakeTuple case Vector => MakeVector case Deque => MakeDeque
  }

  function MakeMapOp(kind: PairKind): Op {
    match kind case Attr => MakeAttrMap case Param => MakeParamMap case Prop => MakePropMap
  }

  function MakePairOp(kind: PairKind): Op {
    match kind case Attr => MakeAttr case Param => MakeParam case Prop => MakeProp
  }

  function KeyObj(k: Key): Obj {
    match k case Index(i) => Size(i) case Name(s) => Str(s) case Code(c) => Obis(c)
  }

  /** A value whose leaves can be program constants and whose keys fit their containers. */
  ghost predicate Buildable(t: Obj) {
    match t
    case Instr(_) => false
    case List(_, items) => forall i :: 0 <= i < |items| ==> Buildable(items[i])
    case Map(kind, m) => forall k :: k in m ==> KeyFits(kind, k) && Buildable(m[k])
    case Pair(kind, k, v) => KeyFits(kind, k) && Buildable(v)
    case _ => true
  }

  // ---- building a value in a frame --------------------------------------

  /** ESBA, children last to first, FRM, MAKE_x, PULL; a pair is its value, its key, MAKE_x. */
  function Build(t: Obj, ord: Order): seq<Obj>
    requires Visits(ord)
    decreases t, 1
  {
    match t
    case List(kind, items) => Framed(BuildItems(items, ord), MakeListOp(kind))
    case Map(kind, m) => Framed(BuildEntries(t, ord(m), ord), MakeMapOp(kind))
    case Pair(kind, k, v) => Build(v, ord) + [KeyObj(k), Instr(MakePairOp(kind))]
    case _ => [t]
  }

  function Framed(body: seq<Obj>, make: Op): seq<Obj> {
    [Instr(Esba)] + body + [Instr(Frm), Instr(make), Instr(Pull)]
  }

  function BuildItems(items: seq<Obj>, ord: Order): seq<Obj>
    requires Visits(ord)
    decreases items, 0
  {
    if items == [] then [] else BuildItems(items[1..], ord) + Build(items[0], ord)
  }

  function BuildEntries(t: Obj, keys: seq<Key>, ord: Order): seq<Obj>
    requires Visits(ord)
    requires t.Map? && forall i :: 0 <= i < |keys| ==> keys[i] in t.entries
    decreases t, 0, |keys|
  {
    if keys == [] then []
    else
      BuildEntries(t, keys[1..], ord) + Build(t.entries[keys[0]], ord)
      + [KeyObj(keys[0]), Instr(MakePairOp(t.mapKind))]
  }

  lemma {:induction false} RunOne(env: Env, st: Vm, obj: Obj)
    ensures Run(env, st, [obj]) == Exec(env, st, obj)
  {
  }

  lemma {:induction false} RunThen(env: Env, st: Vm, p: seq<Obj>, obj: Obj)
    ensures Run(env, st, p + [obj]) ==
      match Run(env, st, p) case None => None case Some(mid) => Exec(env, mid, obj)
  {
    RunAppend(env, st, p, [obj]);
    if Run(env, st, p).Some? {
      RunOne(env, Run(env, st, p).value, obj);
    }
  }

  /** Values that are not instructions are pushed as they are. */
  lemma {:induction false} RunConstants(env: Env, st: Vm, xs: seq<Obj>)
    requires forall i :: 0 <= i < |xs| ==> !xs[i].Instr?
    ensures Run(env, st, xs) == Some(st.(s := st.s + xs))
    decreases |xs|
  {
    if xs == [] {
      assert st.s + [] == st.s;
    } else {
      RunConstants(env, Push(st, xs[0]), xs[1..]);
      assert (st.s + [xs[0]]) + xs[1..] == st.s + xs;
    }
  }

  lemma {:induction false} PairRun(env: Env, st: Vm, v: Obj, kind: PairKind, k: Key)
    requires KeyFits(kind, k)
    ensures Run(env, Push(st, v), [KeyObj(k), Instr(MakePairOp(kind))]) == Some(Push(st, Pair(kind, k, v)))
  {
    var st1 := Push(st, v);
    var st2 := Push(st1, KeyObj(k));
    assert [KeyObj(k), Instr(MakePairOp(kind))] == [KeyObj(k)] + [Instr(MakePairOp(kind))];
    RunThen(env, st1, [KeyObj(k)], Instr(MakePairOp(kind)));
    RunOne(env, st1, KeyObj(k));
    assert st2.s[..|st2.s| - 2] == st.s;
  }

  /** The stack slots that a frame's children leave: the first child on top. */
  function EntrySlots(t: Obj, keys: seq<Key>): (r: seq<Obj>)
    requires t.Map? && forall i :: 0 <= i < |keys| ==> keys[i] in t.entries
    ensures |r| == |keys|
  {
    if keys == [] then []
    else EntrySlots(t, keys[1..]) + [Pair(t.mapKind, keys[0], t.entries[keys[0]])]
  }

  predicate SlotsOf(kind: PairKind, m: map<Key, Obj>, slots: seq<Obj>) {
    forall i :: 0 <= i < |slots| ==> IsPair(slots[i], kind) && slots[i].key in m && slots[i].val == m[slots[i].key]
  }

  function SlotKeys(slots: seq<Obj>): set<Key>
    requires forall i :: 0 <= i < |slots| ==> slots[i].Pair?
  {
    set i | 0 <= i < |slots| :: slots[i].key
  }

  /** Pairs taken from one map are gathered into that map, cut down to their keys. */
  lemma {:induction false} GatherSlots(kind: PairKind, m: map<Key, Obj>, slots: seq<Obj>)
    requires SlotsOf(kind, m, slots)
    ensures Gather(kind, slots) == Some(Cut(m, SlotKeys(slots)))
    decreases |slots|
  {
    if slots == [] {
      assert Cut(m, {}) == map[];
    } else {
      assert forall i :: 0 <= i < |slots[1..]| ==> slots[1..][i] == slots[i + 1];
      GatherSlots(kind, m, slots[1..]);
      SlotKeysMore(slots);
      var rest := Cut(m, SlotKeys(slots[1..]));
      assert Cut(m, SlotKeys(slots)) == rest[slots[0].key := slots[0].val];
      assert slots[0].key in rest ==> rest[slots[0].key := slots[0].val] == rest;
    }
  }

  function Cut(m: map<Key, Obj>, keys: set<Key>): map<Key, Obj> { map k | k in m && k in keys :: m[k] }

  lemma SlotKeysMore(slots: seq<Obj>)
    requires slots != [] && forall i :: 0 <= i < |slots| ==> slots[i].Pair?
    ensures SlotKeys(slots) == {slots[0].key} + SlotKeys(slots[1..])
  {
  }

  lemma {:induction false} EntrySlotsFit(t: Obj, keys: seq<Key>)
    requires t.Map? && forall i :: 0 <= i < |keys| ==> keys[i] in t.entries
    ensures SlotsOf(t.mapKind, t.entries, EntrySlots(t, keys))
    ensures forall k :: k in SlotKeys(EntrySlots(t, keys)) <==> k in keys
    decreases |keys|
  {
    if keys != [] {
      var rest := EntrySlots(t, keys[1..]);
      var p := Pair(t.mapKind, keys[0], t.entries[keys[0]]);
      EntrySlotsFit(t, keys[1..]);
      assert forall k :: k in keys <==> k == keys[0] || k in keys[1..];
      var all := rest + [p];
      forall k ensures k in SlotKeys(all) <==> k == keys[0] || k in SlotKeys(rest) {
        if k in SlotKeys(rest) {
          var i :| 0 <= i < |rest| && rest[i].key == k;
          assert all[i].key == k;
        }
        assert all[|rest|].key == keys[0];
      }
    }
  }

  lemma {:induction false} GatherEntries(t: Obj, keys: seq<Key>)
    requires t.Map? && Enumerates(keys, t.entries.Keys)
    ensures Gather(t.mapKind, EntrySlots(t, keys)) == Some(t.entries)
  {
    EntrySlotsFit(t, keys);
    GatherSlots(t.mapKind, t.entries, EntrySlots(t, keys));
    assert Cut(t.entries, SlotKeys(EntrySlots(t, keys))) == t.entries;
  }

  /** The state just after ESBA. */
  function Opened(st: Vm): Vm { Vm(st.s + [Size(st.bp)], |st.s|, st.sent) }

  /** A body that leaves `xs` above the base slot, and a constructor that makes `v` of them,
      leave `v` alone: FRM counts exactly the frame's own values and PULL drops the base slot. */
  lemma {:induction false} FramedRun(env: Env, st: Vm, body: seq<Obj>, make: Op, xs: seq<Obj>, v: Obj)
    requires Run(env, Opened(st), body) == Some(Opened(st).(s := Opened(st).s + xs))
    requires ExecOp(env, Opened(st).(s := Opened(st).s + xs + [Size(|xs|)]), make)
          == Some(Opened(st).(s := Opened(st).s + [v]))
    ensures Run(env, st, Framed(body, make)) == Some(Push(st, v))
  {
    var o := Opened(st);
    var p1 := [Instr(Esba)] + body;
    var p2 := p1 + [Instr(Frm)];
    var p3 := p2 + [Instr(make)];
    assert Framed(body, make) == p3 + [Instr(Pull)];
    assert Run(env, st, p1) == Some(o.(s := o.s + xs)) by {
      RunAppend(env, st, [Instr(Esba)], body);
      RunOne(env, st, Instr(Esba));
    }
    FrmCounts(env, st, xs);
    RunThen(env, st, p1, Instr(Frm));
    RunThen(env, st, p2, Instr(make));
    PullDropsBase(env, st, v);
    RunThen(env, st, p3, Instr(Pull));
  }

  lemma FrmCounts(env: Env, st: Vm, xs: seq<Obj>)
    ensures var o := Opened(st);
      ExecOp(env, o.(s := o.s + xs), Frm) == Some(o.(s := o.s + xs + [Size(|xs|)]))
  {
  }

  lemma PullDropsBase(env: Env, st: Vm, v: Obj)
    ensures var o := Opened(st); ExecOp(env, o.(s := o.s + [v]), Pull) == Some(Push(st, v))
  {
    var s := Opened(st).s + [v];
    assert s[|st.s|] == Size(st.bp) && s[..|st.s|] + s[|st.s| + 1..] == st.s + [v];
  }

  lemma CountedOf(base: seq<Obj>, xs: seq<Obj>)
    ensures var s := base + xs + [Size(|xs|)];
      HasCounted(s) && Counted(s) == xs && Below(s) == base
  {
  }

  lemma {:induction false} ListMade(env: Env, st: Vm, kind: ListKind, xs: seq<Obj>)
    ensures ExecOp(env, st.(s := st.s + xs + [Size(|xs|)]), MakeListOp(kind))
         == Some(st.(s := st.s + [List(kind, Reverse(xs))]))
  {
    CountedOf(st.s, xs);
    MakeListIs(env, st.(s := st.s + xs + [Size(|xs|)]), kind, st.s, xs);
  }

  lemma {:induction false} MakeListIs(env: Env, full: Vm, kind: ListKind, below: seq<Obj>, xs: seq<Obj>)
    requires HasCounted(full.s) && Counted(full.s) == xs && Below(full.s) == below
    ensures ExecOp(env, full, MakeListOp(kind)) == Some(full.(s := below + [List(kind, Reverse(xs))]))
  {
  }

  lemma {:induction false} MapMade(env: Env, st: Vm, kind: PairKind, m: map<Key, Obj>, slots: seq<Obj>)
    requires Gather(kind, slots) == Some(m) && (kind == Attr ==> st.s != [] || slots != [])
    ensures ExecOp(env, st.(s := st.s + slots + [Size(|slots|)]), MakeMapOp(kind))
         == Some(st.(s := st.s + [Map(kind, m)]))
  {
    CountedOf(st.s, slots);
    var full := st.(s := st.s + slots + [Size(|slots|)]);
    assert ExecOp(env, full, MakeMapOp(kind)) == MakeMap(kind, full);
  }

  /** The machine as a builder: the program for a value leaves exactly that value on an
      otherwise unchanged stack, with the base pointer back where it was. */
  lemma {:induction false} Builds(env: Env, st: Vm, t: Obj, ord: Order)
    requires Visits(ord) && Buildable(t)
    ensures Run(env, st, Build(t, ord)) == Some(Push(st, t))
    decreases t, 1
  {
    var o := Opened(st);
    match t
    case List(kind, items) =>
      BuildsItems(env, o, items, ord);
      ListMade(env, o, kind, Reverse(items));
      ReverseTwice(items);
      FramedRun(env, st, BuildItems(items, ord), MakeListOp(kind), Reverse(items), t);
    case Map(kind, m) =>
      var keys := ord(m);
      BuildsEntries(env, o, t, keys, ord);
      GatherEntries(t, keys);
      MapMade(env, o, kind, m, EntrySlots(t, keys));
      FramedRun(env, st, BuildEntries(t, keys, ord), MakeMapOp(kind), EntrySlots(t, keys), t);
    case Pair(kind, k, v) =>
      Builds(env, st, v, ord);
      RunAppend(env, st, Build(v, ord), [KeyObj(k), Instr(MakePairOp(kind))]);
      PairRun(env, st, v, kind, k);
    case _ =>
      RunOne(env, st, t);
  }

  lemma {:induction false} BuildsItems(env: Env, st: Vm, items: seq<Obj>, ord: Order)
    requires Visits(ord)
    requires forall i :: 0 <= i < |items| ==> Buildable(items[i])
    ensures Run(env, st, BuildItems(items, ord)) == Some(st.(s := st.s + Reverse(items)))
    decreases items, 0
  {
    if items == [] {
      assert st.s + [] == st.s;
    } else {
      var mid := st.(s := st.s + Reverse(items[1..]));
      BuildsItems(env, st, items[1..], ord);
      RunAppend(env, st, BuildItems(items[1..], ord), Build(items[0], ord));
      Builds(env, mid, items[0], ord);
      assert mid.s + [items[0]] == st.s + Reverse(items);
    }
  }

  lemma {:induction false} BuildsEntries(env: Env, st: Vm, t: Obj, keys: seq<Key>, ord: Order)
    requires Visits(ord)
    requires t.Map? && Buildable(t) && forall i :: 0 <= i < |keys| ==> keys[i] in t.entries
    ensures Run(env, st, BuildEntries(t, keys, ord)) == Some(st.(s := st.s + EntrySlots(t, keys)))
    decreases t, 0, |keys|
  {
    if keys == [] {
      assert st.s + [] == st.s;
    } else {
      var k, v := keys[0], t.entries[keys[0]];
      var mid := st.(s := st.s + EntrySlots(t, keys[1..]));
      var p := BuildEntries(t, keys[1..], ord);
      BuildsEntries(env, st, t, keys[1..], ord);
      RunAppend(env, st, p, Build(v, ord));
      Builds(env, mid, v, ord);
      RunAppend(env, st, p + Build(v, ord), [KeyObj(k), Instr(MakePairOp(t.mapKind))]);
      PairRun(env, mid, v, t.mapKind, k);
      assert mid.s + [Pair(t.mapKind, k, v)] == st.s + EntrySlots(t, keys);
    }
  }

  /** SPLIT and MAKE_x are not inverse to each other: together they reverse a list,
      which gives it back exactly when it is its own reverse. */
  lemma {:induction false} SplitThenMake(env: Env, st: Vm, kind: ListKind, items: seq<Obj>)
    ensures Run(env, Push(st, List(kind, items)), [Instr(Split), Instr(MakeListOp(kind))])
         == Some(Push(st, List(kind, Reverse(items))))
  {
    var full := Push(st, List(kind, items));
    var open := st.(s := st.s + items + [Size(|items|)]);
    assert [Instr(Split), Instr(MakeListOp(kind))] == [Instr(Split)] + [Instr(MakeListOp(kind))];
    RunThen(env, full, [Instr(Split)], Instr(MakeListOp(kind)));
    RunOne(env, full, Instr(Split));
    assert full.s[..|full.s| - 1] == st.s;
    assert ExecOp(env, full, Split) == Some(open);
    ListMade(env, st, kind, items);
  }
}
