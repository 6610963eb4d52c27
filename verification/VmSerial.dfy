/** The binary serializer writes a value as a program: children first to last, a count, MAKE_x.
    Fed to the machine, that program gives the value back with every list reversed. */
module VmSerial {
  import opened Dom
  import opened OpCodes
  import opened VmModel
  import opened VmPrograms

  function Serialize(t: Obj, ord: Order): seq<Obj>
    requires Visits(ord)
    decreases t, 1
  {
    match t
    case List(kind, items) => SerializeItems(items, ord) + [Size(|items|), Instr(MakeListOp(kind))]
    case Map(kind, m) => SerializeEntries(t, ord(m), ord) + [Size(|m|), Instr(MakeMapOp(kind))]
    case Pair(kind, k, v) => Serialize(v, ord) + [KeyObj(k), Instr(MakePairOp(kind))]
    case Prg(bs) => BufferObjs(bs) + [Size(|bs|), Instr(MakePrg)]
    case _ => [t]
  }

  function SerializeItems(items: seq<Obj>, ord: Order): seq<Obj>
    requires Visits(ord)
    decreases items, 0
  {
    if items == [] then [] else Serialize(items[0], ord) + SerializeItems(items[1..], ord)
  }

  function SerializeEntries(t: Obj, keys: seq<Key>, ord: Order): seq<Obj>
    requires Visits(ord)
    requires t.Map? && forall i :: 0 <= i < |keys| ==> keys[i] in t.entries
    decreases t, 0, |keys|
  {
    if keys == [] then []
    else
      Serialize(t.entries[keys[0]], ord) + [KeyObj(keys[0]), Instr(MakePairOp(t.mapKind))]
      + SerializeEntries(t, keys[1..], ord)
  }

  function BufferObjs(bs: seq<seq<nat>>): seq<Obj> {
    if bs == [] then [] else [Buffer(bs[0])] + BufferObjs(bs[1..])
  }

  // ---- what comes back --------------------------------------------------

  /** The value with every list, at every depth, in reverse. */
  function Mirror(t: Obj): Obj
    decreases t, 1
  {
    match t
    case List(kind, items) => List(kind, Reverse(MirrorAll(items)))
    case Map(kind, m) => Map(kind, map k | k in m :: Mirror(m[k]))
    case Pair(kind, k, v) => Pair(kind, k, Mirror(v))
    case Prg(bs) => Prg(Reverse(bs))
    case _ => t
  }

  function MirrorAll(items: seq<Obj>): (r: seq<Obj>)
    ensures |r| == |items|
    decreases items, 0
  {
    if items == [] then [] else [Mirror(items[0])] + MirrorAll(items[1..])
  }

  lemma {:induction false} MirrorAllAt(items: seq<Obj>, i: nat)
    requires i < |items|
    ensures MirrorAll(items)[i] == Mirror(items[i])
    decreases |items|
  {
    if i > 0 {
      MirrorAllAt(items[1..], i - 1);
    }
  }

  /** Two values that read the same from opposite ends: leaf by leaf, list items paired
      first with last, map entries and pairs by key. */
  ghost predicate Twin(a: Obj, b: Obj)
    decreases a
  {
    match a
    case List(kind, items) =>
      && b.List? && b.listKind == kind && |b.items| == |items|
      && forall i :: 0 <= i < |items| ==> Twin(items[i], b.items[|items| - 1 - i])
    case Map(kind, m) =>
      && b.Map? && b.mapKind == kind && b.entries.Keys == m.Keys
      && forall k :: k in m ==> Twin(m[k], b.entries[k])
    case Pair(kind, k, v) => b.Pair? && b.pairKind == kind && b.key == k && Twin(v, b.val)
    case Prg(bs) => b.Prg? && |b.buffers| == |bs| && forall i :: 0 <= i < |bs| ==> bs[i] == b.buffers[|bs| - 1 - i]
    case _ => a == b
  }

  lemma {:induction false} TwinIsMirror(a: Obj, b: Obj)
    ensures Twin(a, b) <==> Mirror(a) == b
    decreases a
  {
    match a
    case List(kind, items) =>
      if b.List? && |b.items| == |items| {
        TwinItems(items, b.items);
      }
    case Map(kind, m) =>
      if b.Map? && b.entries.Keys == m.Keys {
        forall k | k in m ensures Twin(m[k], b.entries[k]) <==> Mirror(m[k]) == b.entries[k] {
          TwinIsMirror(m[k], b.entries[k]);
        }
        assert (forall k :: k in m ==> Mirror(m[k]) == b.entries[k]) <==> (map k | k in m :: Mirror(m[k])) == b.entries;
      }
    case Pair(kind, k, v) =>
      if b.Pair? {
        TwinIsMirror(v, b.val);
      }
    case Prg(bs) =>
      if b.Prg? && |b.buffers| == |bs| {
        forall i | 0 <= i < |bs| ensures Reverse(bs)[i] == bs[|bs| - 1 - i] { ReverseAt(bs, i); }
        if Twin(a, b) {
          forall i | 0 <= i < |bs| ensures Reverse(bs)[i] == b.buffers[i] {
            assert bs[|bs| - 1 - i] == b.buffers[|bs| - 1 - (|bs| - 1 - i)];
          }
        }
      }
    case _ =>
  }

  lemma {:induction false} TwinItems(xs: seq<Obj>, ys: seq<Obj>)
    requires |xs| == |ys|
    ensures (forall i :: 0 <= i < |xs| ==> Twin(xs[i], ys[|xs| - 1 - i])) <==> Reverse(MirrorAll(xs)) == ys
    decreases xs
  {
    var n := |xs|;
    var r := Reverse(MirrorAll(xs));
    forall i | 0 <= i < n ensures r[n - 1 - i] == Mirror(xs[i]) {
      ReverseAt(MirrorAll(xs), n - 1 - i);
      MirrorAllAt(xs, i);
    }
    forall i | 0 <= i < n ensures Twin(xs[i], ys[n - 1 - i]) <==> r[n - 1 - i] == ys[n - 1 - i] {
      TwinIsMirror(xs[i], ys[n - 1 - i]);
    }
    if forall i :: 0 <= i < n ==> Twin(xs[i], ys[n - 1 - i]) {
      forall j | 0 <= j < n ensures r[j] == ys[j] {
        assert Twin(xs[n - 1 - j], ys[n - 1 - (n - 1 - j)]);
      }
    }
  }

  lemma {:induction false} TwinSymmetric(a: Obj, b: Obj)
    requires Twin(a, b)
    ensures Twin(b, a)
    decreases a
  {
    match a
    case List(_, items) =>
      var n := |items|;
      forall i | 0 <= i < n ensures Twin(b.items[i], items[n - 1 - i]) {
        assert Twin(items[n - 1 - i], b.items[n - 1 - (n - 1 - i)]);
        TwinSymmetric(items[n - 1 - i], b.items[i]);
      }
    case Map(_, m) =>
      forall k | k in m ensures Twin(b.entries[k], m[k]) {
        TwinSymmetric(m[k], b.entries[k]);
      }
    case Pair(_, _, v) => TwinSymmetric(v, b.val);
    case Prg(bs) =>
      forall i | 0 <= i < |bs| ensures b.buffers[i] == bs[|bs| - 1 - i] {
        assert bs[|bs| - 1 - i] == b.buffers[|bs| - 1 - (|bs| - 1 - i)];
      }
    case _ =>
  }

  lemma {:induction false} MirrorTwice(t: Obj)
    ensures Mirror(Mirror(t)) == t
  {
    TwinIsMirror(t, Mirror(t));
    TwinSymmetric(t, Mirror(t));
    TwinIsMirror(Mirror(t), t);
  }

  // ---- running the stream -----------------------------------------------

  /** The stream starts by making an empty attribute map, which asserts on an empty stack. */
  ghost predicate LeadsEmptyAttrMap(t: Obj, ord: Order)
    requires Visits(ord)
  {
    match t
    case List(_, items) => items != [] && LeadsEmptyAttrMap(items[0], ord)
    case Map(kind, m) =>
      if m == map[] then kind == Attr
      else FirstKey(m, ord); LeadsEmptyAttrMap(m[ord(m)[0]], ord)
    case Pair(_, _, v) => LeadsEmptyAttrMap(v, ord)
    case _ => false
  }

  lemma FirstKey(m: map<Key, Obj>, ord: Order)
    requires Visits(ord) && m != map[]
    ensures ord(m) != [] && ord(m)[0] in m
  {
  }

  /** The slots that serialized entries leave: the first entry at the bottom. */
  function MirrorSlots(t: Obj, keys: seq<Key>): (r: seq<Obj>)
    requires t.Map? && forall i :: 0 <= i < |keys| ==> keys[i] in t.entries
    ensures |r| == |keys|
    ensures forall i :: 0 <= i < |r| ==> r[i] == Pair(t.mapKind, keys[i], Mirror(t.entries[keys[i]]))
  {
    seq(|keys|, i requires 0 <= i < |keys| => Pair(t.mapKind, keys[i], Mirror(t.entries[keys[i]])))
  }

  lemma MirrorSlotsFirst(t: Obj, keys: seq<Key>)
    requires t.Map? && keys != [] && forall i :: 0 <= i < |keys| ==> keys[i] in t.entries
    ensures MirrorSlots(t, keys) ==
      [Pair(t.mapKind, keys[0], Mirror(t.entries[keys[0]]))] + MirrorSlots(t, keys[1..])
  {
  }

  lemma {:induction false} GatherMirror(t: Obj, keys: seq<Key>)
    requires t.Map? && Enumerates(keys, t.entries.Keys)
    ensures Gather(t.mapKind, MirrorSlots(t, keys)) == Some(Mirror(t).entries)
  {
    var slots := MirrorSlots(t, keys);
    var m := map k | k in t.entries :: Mirror(t.entries[k]);
    assert Mirror(t).entries == m;
    assert SlotsOf(t.mapKind, m, slots);
    GatherSlots(t.mapKind, m, slots);
    MirrorSlotKeys(t, keys);
    assert Cut(m, SlotKeys(slots)) == m;
  }

  lemma MirrorSlotKeys(t: Obj, keys: seq<Key>)
    requires t.Map? && Enumerates(keys, t.entries.Keys)
    ensures SlotKeys(MirrorSlots(t, keys)) == t.entries.Keys
  {
    var slots := MirrorSlots(t, keys);
    forall k | k in t.entries ensures k in SlotKeys(slots) {
      assert k in keys;
      var i :| 0 <= i < |keys| && keys[i] == k;
      assert slots[i].key == k;
    }
  }

  /** What running the stream comes to: None exactly when the first thing made is an empty
      attribute map on an empty stack. */
  function Received(st: Vm, blocked: bool, xs: seq<Obj>): Option<Vm> {
    if st.s == [] && blocked then None else Some(st.(s := st.s + xs))
  }

  lemma {:induction false} Receives(env: Env, st: Vm, t: Obj, ord: Order)
    requires Visits(ord) && Buildable(t)
    ensures Run(env, st, Serialize(t, ord)) == Received(st, LeadsEmptyAttrMap(t, ord), [Mirror(t)])
    decreases t, 1
  {
    match t
    case List(kind, items) =>
      ReceivesItems(env, st, items, ord);
      MakeRun(env, st, SerializeItems(items, ord), |items|, MakeListOp(kind));
      if !(st.s == [] && LeadsEmptyAttrMap(t, ord)) {
        ListMade(env, st, kind, MirrorAll(items));
      }
    case Map(kind, m) =>
      var keys := ord(m);
      assert Enumerates(keys, m.Keys);
      EnumerationSize(keys, m.Keys);
      if m != map[] { FirstKey(m, ord); }
      ReceivesEntries(env, st, t, keys, ord);
      MakeRun(env, st, SerializeEntries(t, keys, ord), |m|, MakeMapOp(kind));
      GatherMirror(t, keys);
      if m == map[] && kind == Attr && st.s == [] {
        EmptyAttrMapAsserts(env, st);
      } else if !(st.s == [] && LeadsEmptyAttrMap(t, ord)) {
        MapMade(env, st, kind, Mirror(t).entries, MirrorSlots(t, keys));
      }
    case Pair(kind, k, v) =>
      Receives(env, st, v, ord);
      ReceivesPair(env, st, v, kind, k, ord);
    case Prg(bs) =>
      BuffersGather(bs);
      RunConstants(env, st, BufferObjs(bs));
      MakeRun(env, st, BufferObjs(bs), |bs|, MakePrg);
      PrgMade(env, st, bs);
    case _ =>
      RunOne(env, st, t);
  }

  /** A count and a constructor after a body. */
  lemma {:induction false} MakeRun(env: Env, st: Vm, body: seq<Obj>, n: nat, make: Op)
    ensures Run(env, st, body + [Size(n), Instr(make)]) ==
      match Run(env, st, body) case None => None case Some(mid) => ExecOp(env, Push(mid, Size(n)), make)
  {
    assert body + [Size(n), Instr(make)] == (body + [Size(n)]) + [Instr(make)];
    RunThen(env, st, body + [Size(n)], Instr(make));
    RunThen(env, st, body, Size(n));
  }

  lemma EmptyAttrMapAsserts(env: Env, st: Vm)
    requires st.s == []
    ensures ExecOp(env, Push(st, Size(0)), MakeAttrMap) == None
  {
  }

  /** One received value and then the rest, which never starts on an empty stack. */
  lemma {:induction false} ReceivedThen(env: Env, st: Vm, p: seq<Obj>, q: seq<Obj>, blocked: bool, x: Obj, also: bool,
                                        xs: seq<Obj>)
    requires Run(env, st, p) == Received(st, blocked, [x])
    requires Run(env, Push(st, x), q) == Received(Push(st, x), also, xs)
    ensures Run(env, st, p + q) == Received(st, blocked, [x] + xs)
  {
    RunAppend(env, st, p, q);
    assert Push(st, x).s + xs == st.s + ([x] + xs);
  }

  lemma {:induction false} ReceivesItems(env: Env, st: Vm, items: seq<Obj>, ord: Order)
    requires Visits(ord) && forall i :: 0 <= i < |items| ==> Buildable(items[i])
    ensures Run(env, st, SerializeItems(items, ord)) ==
      Received(st, items != [] && LeadsEmptyAttrMap(items[0], ord), MirrorAll(items))
    decreases items, 0
  {
    if items == [] {
      assert st.s + [] == st.s;
    } else {
      var x, rest := Mirror(items[0]), items[1..];
      Receives(env, st, items[0], ord);
      ReceivesItems(env, Push(st, x), rest, ord);
      ReceivedThen(env, st, Serialize(items[0], ord), SerializeItems(rest, ord), LeadsEmptyAttrMap(items[0], ord), x,
                   rest != [] && LeadsEmptyAttrMap(rest[0], ord), MirrorAll(rest));
    }
  }

  lemma {:induction false} ReceivesEntries(env: Env, st: Vm, t: Obj, keys: seq<Key>, ord: Order)
    requires Visits(ord) && t.Map? && Buildable(t)
    requires forall i :: 0 <= i < |keys| ==> keys[i] in t.entries
    ensures Run(env, st, SerializeEntries(t, keys, ord)) ==
      Received(st, keys != [] && LeadsEmptyAttrMap(t.entries[keys[0]], ord), MirrorSlots(t, keys))
    decreases t, 0, |keys|
  {
    if keys == [] {
      assert st.s + [] == st.s;
    } else {
      var k, v, rest := keys[0], t.entries[keys[0]], keys[1..];
      var x := Pair(t.mapKind, k, Mirror(v));
      var first := Serialize(v, ord) + [KeyObj(k), Instr(MakePairOp(t.mapKind))];
      assert Run(env, st, first) == Received(st, LeadsEmptyAttrMap(v, ord), [x]) by {
        Receives(env, st, v, ord);
        ReceivesPair(env, st, v, t.mapKind, k, ord);
      }
      var also := rest != [] && LeadsEmptyAttrMap(t.entries[rest[0]], ord);
      ReceivesEntries(env, Push(st, x), t, rest, ord);
      MirrorSlotsFirst(t, keys);
      ReceivedThen(env, st, first, SerializeEntries(t, rest, ord), LeadsEmptyAttrMap(v, ord), x, also,
        MirrorSlots(t, rest));
    }
  }

  lemma {:induction false} ReceivesPair(env: Env, st: Vm, v: Obj, kind: PairKind, k: Key, ord: Order)
    requires Visits(ord) && KeyFits(kind, k)
    requires Run(env, st, Serialize(v, ord)) == Received(st, LeadsEmptyAttrMap(v, ord), [Mirror(v)])
    ensures Run(env, st, Serialize(v, ord) + [KeyObj(k), Instr(MakePairOp(kind))]) ==
      Received(st, LeadsEmptyAttrMap(v, ord), [Pair(kind, k, Mirror(v))])
  {
    RunAppend(env, st, Serialize(v, ord), [KeyObj(k), Instr(MakePairOp(kind))]);
    if !(st.s == [] && LeadsEmptyAttrMap(v, ord)) {
      PairRun(env, st, Mirror(v), kind, k);
    }
  }

  lemma {:induction false} BuffersGather(bs: seq<seq<nat>>)
    ensures |BufferObjs(bs)| == |bs| && GatherBuffers(BufferObjs(bs)) == Some(Reverse(bs))
    ensures forall i :: 0 <= i < |bs| ==> BufferObjs(bs)[i] == Buffer(bs[i])
    decreases |bs|
  {
    if bs != [] {
      BuffersGather(bs[1..]);
      assert BufferObjs(bs)[1..] == BufferObjs(bs[1..]);
    }
  }

  lemma {:induction false} PrgMade(env: Env, st: Vm, bs: seq<seq<nat>>)
    ensures ExecOp(env, Push(st.(s := st.s + BufferObjs(bs)), Size(|bs|)), MakePrg) == Some(Push(st, Prg(Reverse(bs))))
  {
    BuffersGather(bs);
    CountedOf(st.s, BufferObjs(bs));
    MakePrgIs(env, Push(st.(s := st.s + BufferObjs(bs)), Size(|bs|)), st.s, BufferObjs(bs), Reverse(bs));
  }

  lemma {:induction false} MakePrgIs(env: Env, full: Vm, below: seq<Obj>, xs: seq<Obj>, bs: seq<seq<nat>>)
    requires HasCounted(full.s) && Counted(full.s) == xs && Below(full.s) == below && GatherBuffers(xs) == Some(bs)
    ensures ExecOp(env, full, MakePrg) == Some(full.(s := below + [Prg(bs)]))
  {
  }

  /** Writing a value and executing what was written gives the value back exactly when it
      reads the same from both ends; doing it twice always does. */
  lemma {:induction false} SerializerRoundTrip(env: Env, st: Vm, t: Obj, ord: Order)
    requires Visits(ord) && Buildable(t) && st.s != []
    ensures Run(env, st, Serialize(t, ord)) == Some(Push(st, Mirror(t)))
    ensures Run(env, st, Serialize(t, ord)) == Some(Push(st, t)) <==> Twin(t, t)
    ensures Buildable(Mirror(t)) && Run(env, st, Serialize(Mirror(t), ord)) == Some(Push(st, t))
  {
    Receives(env, st, t, ord);
    MirrorBuildable(t);
    Receives(env, st, Mirror(t), ord);
    MirrorTwice(t);
    TwinIsMirror(t, t);
    if Push(st, Mirror(t)) == Push(st, t) {
      assert (st.s + [Mirror(t)])[|st.s|] == (st.s + [t])[|st.s|];
    }
  }

  lemma {:induction false} MirrorBuildable(t: Obj)
    requires Buildable(t)
    ensures Buildable(Mirror(t))
    decreases t
  {
    match t
    case List(_, items) =>
      forall i | 0 <= i < |items| ensures Buildable(Mirror(t).items[i]) {
        var j := |items| - 1 - i;
        ReverseAt(MirrorAll(items), i);
        MirrorAllAt(items, j);
        MirrorBuildable(items[j]);
      }
    case Map(_, m) =>
      forall k | k in m ensures Buildable(Mirror(m[k])) {
        MirrorBuildable(m[k]);
      }
    case Pair(_, _, v) => MirrorBuildable(v);
    case _ =>
  }
}
