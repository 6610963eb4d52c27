/** The traversal as it runs: it emits its events one by one. */
module Walker {
  import opened Dom
  import opened WalkerModel

  class Recorder {
    /** The order in which maps hand out their entries. */
    const ord: Order
    var events: seq<Event>

    constructor (ord: Order)
      ensures this.ord == ord && events == []
    {
      this.ord := ord;
      events := [];
    }

    method Emit(e: Event)
      modifies this
      ensures events == old(events) + [e]
    {
      events := events + [e];
    }

    /** The public entry: the root is the last of its kind. */
    method Start(o: Obj)
      requires Visits(ord)
      modifies this
      ensures events == old(events) + Traverse(o, 0, Last, o.Tag(), ord)
    {
      Node(o, 0, Last, o.Tag());
    }

    method Node(o: Obj, depth: nat, state: State, parent: Tag)
      requires Visits(ord)
      modifies this
      ensures events == old(events) + Traverse(o, depth, state, parent, ord)
      decreases o, 2
    {
      match o {
        case List(kind, _) =>
          if kind == Deque {
            // the cast to a vector fails and gives an empty one, so the loop has nothing to do
            Emit(Open(ListTag(Vector), depth, 0));
            Emit(Close(ListTag(Vector), depth, state, parent));
          } else {
            Items(o, depth, state, parent);
          }
        case Map(_, _) => Entries(o, depth, state, parent);
        case Pair(kind, k, v) => PairOf(kind, k, v, depth, state, parent);
        case _ => Emit(Visit(o, o.Tag(), depth, state));
      }
    }

    method Items(o: Obj, depth: nat, state: State, parent: Tag)
      requires Visits(ord) && o.List? && o.listKind != Deque
      modifies this
      ensures events == old(events) + Traverse(o, depth, state, parent, ord)
      decreases o.items, 1
    {
      Emit(Open(o.Tag(), depth, |o.items|));
      ghost var head := events;
      var index := 0;
      while index < |o.items|
        invariant index <= |o.items|
        invariant events + TraverseItems(o, index, depth + 1, ord) == head + TraverseItems(o, 0, depth + 1, ord)
      {
        ghost var before := events;
        index := index + 1;
        Node(o.items[index - 1], depth + 1, GetState(index, |o.items|), o.Tag());
        assert before + TraverseItems(o, index - 1, depth + 1, ord) == events + TraverseItems(o, index, depth + 1, ord);
      }
      assert events == head + TraverseItems(o, 0, depth + 1, ord);
      Emit(Close(o.Tag(), depth, state, parent));
    }

    method Entries(o: Obj, depth: nat, state: State, parent: Tag)
      requires Visits(ord) && o.Map?
      modifies this
      ensures events == old(events) + Traverse(o, depth, state, parent, ord)
      decreases o, 1
    {
      var m, keys := o.entries, ord(o.entries);
      assert Enumerates(keys, m.Keys);
      Emit(Open(o.Tag(), depth, |m|));
      ghost var head := events;
      var index := 0;
      while index < |keys|
        invariant index <= |keys|
        invariant events + TraverseEntries(o, keys, index, depth + 1, ord)
          == head + TraverseEntries(o, keys, 0, depth + 1, ord)
      {
        ghost var before := events;
        var k := keys[index];
        index := index + 1;
        PairOf(o.mapKind, k, m[k], depth + 1, GetState(index, |m|), o.Tag());
        assert before + TraverseEntries(o, keys, index - 1, depth + 1, ord)
          == events + TraverseEntries(o, keys, index, depth + 1, ord);
      }
      assert events == head + TraverseEntries(o, keys, 0, depth + 1, ord);
      Emit(Close(MapTag(if o.mapKind == Prop then Param else o.mapKind), depth, state, parent));
    }

    method PairOf(kind: PairKind, k: Key, v: Obj, depth: nat, state: State, parent: Tag)
      requires Visits(ord)
      modifies this
      ensures events == old(events) + TraversePair(kind, k, v, depth, state, parent, ord)
      decreases v, 3
    {
      if v.IsIntrinsicContainer() {
        Emit(Open(PairTag(kind), depth, 1));
        Emit(PairKey(k, depth));
        Node(v, depth, state, PairTag(kind));
        ghost var body := Traverse(v, depth, state, PairTag(kind), ord);
        assert events == old(events) + ([Open(PairTag(kind), depth, 1), PairKey(k, depth)] + body);
        Emit(Close(PairTag(kind), depth, state, parent));
      } else {
        Emit(Simple(Pair(kind, k, v), depth, state));
      }
    }
  }
}
