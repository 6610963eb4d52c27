/** What single instructions and calls of external functions do, as short programs. */
module VmLaws {
  import opened Dom
  import opened OpCodes
  import opened Schema
  import opened VmModel
  import opened VmPrograms
  import opened VmSerial

  predicate PlainAll(xs: seq<Obj>) { forall i :: 0 <= i < |xs| ==> !xs[i].Instr? }

  /** A program of values and one last instruction. */
  lemma ThenOp(env: Env, st: Vm, xs: seq<Obj>, op: Op)
    requires PlainAll(xs)
    ensures Run(env, st, xs + [Instr(op)]) == ExecOp(env, st.(s := st.s + xs), op)
  {
    RunConstants(env, st, xs);
    RunThen(env, st, xs, Instr(op));
  }

  // ---- calls of external functions --------------------------------------

  lemma InvokeRStep(env: Env, st: Vm, args: seq<Obj>, i: nat, base: seq<Obj>)
    requires i < |env.fns| && 5 + i < NPOS && st.s == base + args + [Size(|args|), Size(5 + i)]
    ensures ExecOp(env, st, InvokeR) == Some(st.(s := base + if env.fns[i].Void? then [] else [env.fns[i].fn(args)]))
  {
    var s := st.s;
    assert s[..|s| - 1] == base + args + [Size(|args|)];
    CountedOf(base, args);
    assert base + [] == base;
  }

  /** INVOKE_R hands the i-th external function exactly its arguments, in push order, and pushes
      what it returns, or nothing; all else is as it was. */
  lemma FunctionCalled(env: Env, st: Vm, args: seq<Obj>, i: nat)
    requires PlainAll(args) && i < |env.fns| && 5 + i < NPOS
    ensures Run(env, st, args + [Size(|args|), Size(5 + i), Instr(InvokeR)])
         == Some(if env.fns[i].Void? then st else st.(s := st.s + [env.fns[i].fn(args)]))
  {
    var head := args + [Size(|args|), Size(5 + i)];
    assert args + [Size(|args|), Size(5 + i), Instr(InvokeR)] == head + [Instr(InvokeR)];
    ThenOp(env, st, head, InvokeR);
    assert st.s + head == st.s + args + [Size(|args|), Size(5 + i)];
    InvokeRStep(env, st.(s := st.s + head), args, i, st.s);
    assert st.s + [] == st.s;
  }

  /** RESOLVE turns a name into its slot, or into the largest index. */
  lemma NameResolved(env: Env, st: Vm, name: string)
    ensures Run(env, st, [Str(name), Instr(Resolve)])
         == Some(st.(s := st.s + [Size(if name in env.names then env.names[name] else 0x1_0000_0000_0000_0000 - 1)]))
  {
    assert [Str(name), Instr(Resolve)] == [Str(name)] + [Instr(Resolve)];
    ThenOp(env, st, [Str(name)], Resolve);
    var s := st.s + [Str(name)];
    assert s[..|s| - 1] == st.s;
  }

  /** The same call by name: the name is resolved to the function's slot first. */
  lemma FunctionCalledByName(env: Env, st: Vm, args: seq<Obj>, name: string, i: nat)
    requires PlainAll(args) && i < |env.fns| && 5 + i < NPOS && name in env.names && env.names[name] == 5 + i
    ensures Run(env, st, args + [Size(|args|), Str(name), Instr(Resolve), Instr(InvokeR)])
         == Some(if env.fns[i].Void? then st else st.(s := st.s + [env.fns[i].fn(args)]))
  {
    var head := args + [Size(|args|)];
    var mid := st.(s := st.s + head);
    assert args + [Size(|args|), Str(name), Instr(Resolve), Instr(InvokeR)]
        == head + [Str(name), Instr(Resolve)] + [Instr(InvokeR)];
    RunConstants(env, st, head);
    RunAppend(env, st, head, [Str(name), Instr(Resolve)]);
    NameResolved(env, mid, name);
    RunThen(env, st, head + [Str(name), Instr(Resolve)], Instr(InvokeR));
    assert mid.s + [Size(5 + i)] == st.s + args + [Size(|args|), Size(5 + i)];
    InvokeRStep(env, mid.(s := mid.s + [Size(5 + i)]), args, i, st.s);
    assert st.s + [] == st.s;
  }

  /** A name that is not known asserts when it is called. */
  lemma UnknownNotCalled(env: Env, st: Vm, args: seq<Obj>, name: string)
    requires PlainAll(args) && name !in env.names
    ensures Run(env, st, args + [Size(|args|), Str(name), Instr(Resolve), Instr(InvokeR)]) == None
  {
    var head := args + [Size(|args|)];
    var mid := st.(s := st.s + head);
    assert args + [Size(|args|), Str(name), Instr(Resolve), Instr(InvokeR)]
        == head + [Str(name), Instr(Resolve)] + [Instr(InvokeR)];
    RunConstants(env, st, head);
    RunAppend(env, st, head, [Str(name), Instr(Resolve)]);
    NameResolved(env, mid, name);
    RunThen(env, st, head + [Str(name), Instr(Resolve)], Instr(InvokeR));
  }

  // ---- single instructions ----------------------------------------------

  /** NOOP, TIDY and HALT change nothing; the run goes on after them. */
  lemma QuietOps(env: Env, st: Vm, op: Op, rest: seq<Obj>)
    requires op.Noop? || op.Tidy? || op.Halt?
    ensures Run(env, st, [Instr(op)] + rest) == Run(env, st, rest)
  {
    assert ([Instr(op)] + rest)[1..] == rest;
  }

  lemma PushingOps(env: Env, st: Vm)
    ensures Run(env, st, [Instr(Now)]) == Some(st.(s := st.s + [env.now]))
    ensures Run(env, st, [Instr(Pid)]) == Some(st.(s := st.s + [env.pid]))
    ensures Run(env, st, [Instr(Tid)]) == Some(st.(s := st.s + [env.tid]))
    ensures Run(env, st, [Instr(Ident)]) == Some(st.(s := st.s + [Uuid(env.tag)]))
  {
    RunOne(env, st, Instr(Now));
    RunOne(env, st, Instr(Pid));
    RunOne(env, st, Instr(Tid));
    RunOne(env, st, Instr(Ident));
  }

  lemma NoSuchOp(env: Env, st: Vm, code: nat)
    ensures Run(env, st, [Instr(Unimplemented(code))]) == None
  {
    RunOne(env, st, Instr(Unimplemented(code)));
  }

  /** ASSERT_TYPE takes the type off and passes exactly when the value below has it. */
  lemma TypeAsserted(env: Env, st: Vm, v: Obj, t: Tag)
    ensures Run(env, st.(s := st.s + [v, TypeCode(t)]), [Instr(AssertType)])
         == if v.Tag() == t then Some(st.(s := st.s + [v])) else None
  {
    var full := st.(s := st.s + [v, TypeCode(t)]);
    RunOne(env, full, Instr(AssertType));
    assert full.s[..|full.s| - 1] == st.s + [v];
  }

  /** ASSERT_VALUE takes the upper value off and passes exactly when both have the same hash. */
  lemma ValueAsserted(env: Env, st: Vm, v: Obj, w: Obj)
    ensures Run(env, st.(s := st.s + [v, w]), [Instr(AssertValue)])
         == if env.hash(v) == env.hash(w) then Some(st.(s := st.s + [v])) else None
  {
    var full := st.(s := st.s + [v, w]);
    RunOne(env, full, Instr(AssertValue));
    assert full.s[..|full.s| - 1] == st.s + [v];
  }

  /** SPLIT replaces a list by its elements, first to last, and their number; nothing else can be split. */
  lemma SplitLaw(env: Env, st: Vm, o: Obj)
    ensures Run(env, st.(s := st.s + [o]), [Instr(Split)])
         == if o.List? then Some(st.(s := st.s + o.items + [Size(|o.items|)])) else None
  {
    var full := st.(s := st.s + [o]);
    RunOne(env, full, Instr(Split));
    assert full.s[..|full.s| - 1] == st.s;
  }

  /** A pair is made of a key of exactly the right type on top and the value below it. */
  lemma PairMade(env: Env, st: Vm, v: Obj, key: Obj)
    ensures var full := st.(s := st.s + [v, key]);
      && Run(env, full, [Instr(MakeAttr)])
      == (if key.Size? then Some(st.(s := st.s + [Pair(Attr, Index(key.n), v)])) else None)
      && Run(env, full, [Instr(MakeParam)])
      == (if key.Str? then Some(st.(s := st.s + [Pair(Param, Name(key.s), v)])) else None)
      && Run(env, full, [Instr(MakeProp)])
      == (if key.Obis? then Some(st.(s := st.s + [Pair(Prop, Code(key.code), v)])) else None)
  {
    var full := st.(s := st.s + [v, key]);
    RunOne(env, full, Instr(MakeAttr));
    RunOne(env, full, Instr(MakeParam));
    RunOne(env, full, Instr(MakeProp));
    assert full.s[..|full.s| - 2] == st.s;
  }

  // ---- containers -------------------------------------------------------

  /** The topmost value becomes the first element. */
  lemma ListFromStack(env: Env, st: Vm, kind: ListKind, xs: seq<Obj>) returns (items: seq<Obj>)
    ensures Run(env, st.(s := st.s + xs + [Size(|xs|)]), [Instr(MakeListOp(kind))])
         == Some(st.(s := st.s + [List(kind, items)]))
    ensures |items| == |xs| && forall i :: 0 <= i < |xs| ==> items[i] == xs[|xs| - 1 - i]
  {
    items := Reverse(xs);
    RunOne(env, st.(s := st.s + xs + [Size(|xs|)]), Instr(MakeListOp(kind)));
    ListMade(env, st, kind, xs);
    forall i | 0 <= i < |xs| ensures items[i] == xs[|xs| - 1 - i] {
      ReverseAt(xs, i);
    }
  }

  /** Slots give a map exactly when all are pairs of its kind; it has exactly their keys, and
      of the pairs with one key the uppermost counts. */
  lemma GatherLaw(kind: PairKind, slots: seq<Obj>)
    ensures Gather(kind, slots).Some? <==> AllPairs(kind, slots)
    ensures Gather(kind, slots).Some? ==> forall k :: k in Gather(kind, slots).value <==> HasKey(slots, k)
    ensures Gather(kind, slots).Some? ==> forall i :: 0 <= i < |slots| && Uppermost(slots, i) ==>
      slots[i].key in Gather(kind, slots).value && Gather(kind, slots).value[slots[i].key] == slots[i].val
  {
    GatherPairs(kind, slots);
    if Gather(kind, slots).Some? {
      HasKeyGathered(kind, slots);
      forall i | 0 <= i < |slots| && Uppermost(slots, i)
        ensures slots[i].key in Gather(kind, slots).value && Gather(kind, slots).value[slots[i].key] == slots[i].val
      {
        GatherTop(kind, slots, i);
      }
    }
  }

  predicate AllPairs(kind: PairKind, slots: seq<Obj>) {
    forall i :: 0 <= i < |slots| ==> slots[i].Pair? && slots[i].pairKind == kind
  }

  ghost predicate HasKey(slots: seq<Obj>, k: Key) {
    exists i :: 0 <= i < |slots| && slots[i].Pair? && slots[i].key == k
  }

  /** No pair above has the same key. */
  ghost predicate Uppermost(slots: seq<Obj>, i: nat)
    requires i < |slots|
  {
    slots[i].Pair? && !HasKey(slots[i + 1..], slots[i].key)
  }

  lemma {:induction false} GatherPairs(kind: PairKind, slots: seq<Obj>)
    ensures Gather(kind, slots).Some? <==> AllPairs(kind, slots)
    decreases |slots|
  {
    if slots != [] {
      GatherPairs(kind, slots[1..]);
      assert slots == [slots[0]] + slots[1..];
    }
  }

  lemma {:induction false} GatherTop(kind: PairKind, slots: seq<Obj>, i: nat)
    requires Gather(kind, slots).Some? && i < |slots| && Uppermost(slots, i)
    ensures slots[i].key in Gather(kind, slots).value && Gather(kind, slots).value[slots[i].key] == slots[i].val
    decreases i
  {
    var rest := slots[1..];
    if i == 0 {
      HasKeyGathered(kind, rest);
    } else {
      assert rest[i - 1] == slots[i] && rest[i..] == slots[i + 1..];
      GatherTop(kind, rest, i - 1);
    }
  }

  lemma {:induction false} HasKeyGathered(kind: PairKind, slots: seq<Obj>)
    requires Gather(kind, slots).Some?
    ensures forall k :: k in Gather(kind, slots).value <==> HasKey(slots, k)
    decreases |slots|
  {
    if slots != [] {
      var rest := slots[1..];
      HasKeyGathered(kind, rest);
      forall k ensures HasKey(slots, k) <==> slots[0].key == k || HasKey(rest, k) {
        if HasKey(rest, k) {
          var i :| 0 <= i < |rest| && rest[i].Pair? && rest[i].key == k;
          assert slots[i + 1].key == k;
        }
        if i :| 0 < i < |slots| && slots[i].Pair? && slots[i].key == k {
          assert rest[i - 1].key == k;
        }
        assert slots[0].Pair?;
      }
    }
  }

  /** MAKE_x for maps takes the counted slots off and pushes the map gathered from them, or asserts;
      for attributes it wants one slot more than the count. */
  lemma MapFromStack(env: Env, st: Vm, kind: PairKind, slots: seq<Obj>)
    ensures Run(env, st.(s := st.s + slots + [Size(|slots|)]), [Instr(MakeMapOp(kind))])
         == if kind == Attr && st.s == [] && slots == [] then None
            else match Gather(kind, slots) case None => None case Some(m) => Some(st.(s := st.s + [Map(kind, m)]))
  {
    var full := st.(s := st.s + slots + [Size(|slots|)]);
    RunOne(env, full, Instr(MakeMapOp(kind)));
    assert ExecOp(env, full, MakeMapOp(kind)) == MakeMap(kind, full) by {
      match kind case Attr => case Param => case Prop =>
    }
    MapGathered(kind, full, st.s, slots);
  }

  lemma MapGathered(kind: PairKind, full: Vm, below: seq<Obj>, slots: seq<Obj>)
    requires full.s == below + slots + [Size(|slots|)]
    ensures MakeMap(kind, full) ==
      if kind == Attr && below == [] && slots == [] then None
      else match Gather(kind, slots) case None => None case Some(m) => Some(full.(s := below + [Map(kind, m)]))
  {
    CountedOf(below, slots);
  }

  /** No container is made without a count, or of more values than there are. */
  lemma NotCounted(env: Env, st: Vm, kind: ListKind, pairs: PairKind)
    requires st.s == [] || !st.s[|st.s| - 1].Size? || |st.s| <= st.s[|st.s| - 1].n
    ensures ExecOp(env, st, MakeListOp(kind)) == None && ExecOp(env, st, MakeMapOp(pairs)) == None
    ensures ExecOp(env, st, MakePrg) == None
  {
  }

  /** FORWARD to nobody asserts. */
  lemma NilNotForwarded(env: Env, st: Vm)
    ensures ExecOp(env, Push(st, Uuid(0)), OpCodes.Forward) == None
  {
  }

  // ---- the serializer's order -------------------------------------------

  /** Elements are written first to last. */
  lemma {:induction false} WrittenInOrder(items: seq<Obj>, last: Obj, ord: Order)
    requires Visits(ord)
    ensures SerializeItems(items + [last], ord) == SerializeItems(items, ord) + Serialize(last, ord)
    decreases |items|
  {
    var all := items + [last];
    if items == [] {
      assert all == [last] && all[1..] == [];
      assert Serialize(last, ord) + [] == Serialize(last, ord) && [] + Serialize(last, ord) == Serialize(last, ord);
    } else {
      assert all[0] == items[0] && all[1..] == items[1..] + [last];
      WrittenInOrder(items[1..], last, ord);
      var first, mid := Serialize(items[0], ord), SerializeItems(items[1..], ord);
      assert first + (mid + Serialize(last, ord)) == (first + mid) + Serialize(last, ord);
    }
  }

  predicate IsLeaf(o: Obj) { !o.IsContainer() && !o.Prg? && !o.Instr? }

  /** A list of leaves is its elements, their number and MAKE_x; executed, it comes back reversed. */
  lemma LeavesReceived(env: Env, st: Vm, kind: ListKind, items: seq<Obj>, ord: Order) returns (back: seq<Obj>)
    requires Visits(ord) && forall i :: 0 <= i < |items| ==> IsLeaf(items[i])
    ensures Serialize(List(kind, items), ord) == items + [Size(|items|), Instr(MakeListOp(kind))]
    ensures Run(env, st, Serialize(List(kind, items), ord)) == Some(st.(s := st.s + [List(kind, back)]))
    ensures |back| == |items| && forall i :: 0 <= i < |items| ==> back[i] == items[|items| - 1 - i]
  {
    LeavesWritten(items, ord);
    back := ListFromStack(env, st, kind, items);
    var head := items + [Size(|items|)];
    assert items + [Size(|items|), Instr(MakeListOp(kind))] == head + [Instr(MakeListOp(kind))];
    ThenOp(env, st, head, MakeListOp(kind));
    var full := st.(s := st.s + items + [Size(|items|)]);
    assert st.s + head == full.s;
    RunOne(env, full, Instr(MakeListOp(kind)));
  }

  lemma {:induction false} LeavesWritten(items: seq<Obj>, ord: Order)
    requires Visits(ord) && forall i :: 0 <= i < |items| ==> IsLeaf(items[i])
    ensures SerializeItems(items, ord) == items
    decreases |items|
  {
    if items != [] {
      LeavesWritten(items[1..], ord);
      assert items == [items[0]] + items[1..];
    }
  }
}
