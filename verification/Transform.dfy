/** In-place transformation of object trees: the depth walk and the path walk. */
module Transform {
  import opened Dom

  datatype Act = Nothing | Replace(obj: Obj) | Remove

  type ByDepth = (Obj, nat, Tag) -> Act
  type ByPath = (Obj, seq<Key>) -> Act

  // ---- the walks as functions; None means that the parent drops the node -

  function Walk(o: Obj, depth: nat, f: ByDepth): Option<Obj>
    decreases o, 1
  {
    if o.Pair? then Some(Pair(o.pairKind, o.key, Kept(o.val, Walk(o.val, depth, f))))
    else
      match f(o, depth, o.Tag())
      case Remove => None
      case Replace(r) => Some(r)
      case Nothing =>
        if o.List? then Some(List(o.listKind, WalkItems(o.items, depth + 1, f)))
        else if o.Map? then Some(Map(o.mapKind, WalkEntries(o, depth + 1, f)))
        else Some(o)
  }

  function WalkItems(items: seq<Obj>, depth: nat, f: ByDepth): seq<Obj>
    decreases items, 0
  {
    if items == [] then []
    else
      var r := Walk(items[0], depth, f);
      (if r.Some? then [r.value] else []) + WalkItems(items[1..], depth, f)
  }

  function WalkEntries(o: Obj, depth: nat, f: ByDepth): map<Key, Obj>
    requires o.Map?
    decreases o, 0
  {
    var m := o.entries;
    map k | k in m && Walk(m[k], depth, f).Some? :: Walk(m[k], depth, f).value
  }

  /** A pair cannot drop its value: a removed one stays as it was. */
  function Kept(v: Obj, r: Option<Obj>): Obj { if r.Some? then r.value else v }

  function PathWalk(o: Obj, path: seq<Key>, f: ByPath): Option<Obj>
    decreases o, 1
  {
    if o.Pair? then Some(Pair(o.pairKind, o.key, Kept(o.val, PathWalk(o.val, path + [o.key], f))))
    else
      match f(o, path)
      case Remove => None
      case Replace(r) => Some(r)
      case Nothing =>
        if o.List? then Some(List(o.listKind, PathItems(o.items, path, f)))
        else if o.Map? then Some(Map(o.mapKind, PathEntries(o, path, f)))
        else Some(o)
  }

  function PathItems(items: seq<Obj>, path: seq<Key>, f: ByPath): seq<Obj>
    decreases items, 0
  {
    if items == [] then []
    else
      var r := PathWalk(items[0], path, f);
      (if r.Some? then [r.value] else []) + PathItems(items[1..], path, f)
  }

  /** The entries of a map; the walk over a parameter map starts here, without a call for the map itself. */
  function PathEntries(o: Obj, path: seq<Key>, f: ByPath): map<Key, Obj>
    requires o.Map?
    decreases o, 0
  {
    var m := o.entries;
    map k | k in m && PathWalk(m[k], path + [k], f).Some? :: PathWalk(m[k], path + [k], f).value
  }

  // ---- the loops --------------------------------------------------------

  lemma {:induction false} WalkItemsSnoc(items: seq<Obj>, o: Obj, depth: nat, f: ByDepth)
    ensures WalkItems(items + [o], depth, f) ==
      WalkItems(items, depth, f) + if Walk(o, depth, f).Some? then [Walk(o, depth, f).value] else []
    decreases |items|
  {
    if items == [] {
      assert items + [o] == [o];
    } else {
      assert (items + [o])[0] == items[0] && (items + [o])[1..] == items[1..] + [o];
      WalkItemsSnoc(items[1..], o, depth, f);
      var first := if Walk(items[0], depth, f).Some? then [Walk(items[0], depth, f).value] else [];
      var last := if Walk(o, depth, f).Some? then [Walk(o, depth, f).value] else [];
      assert first + (WalkItems(items[1..], depth, f) + last) == (first + WalkItems(items[1..], depth, f)) + last;
    }
  }

  lemma {:induction false} PathItemsSnoc(items: seq<Obj>, o: Obj, path: seq<Key>, f: ByPath)
    ensures PathItems(items + [o], path, f) ==
      PathItems(items, path, f) + if PathWalk(o, path, f).Some? then [PathWalk(o, path, f).value] else []
    decreases |items|
  {
    if items == [] {
      assert items + [o] == [o];
    } else {
      assert (items + [o])[0] == items[0] && (items + [o])[1..] == items[1..] + [o];
      PathItemsSnoc(items[1..], o, path, f);
      var first := if PathWalk(items[0], path, f).Some? then [PathWalk(items[0], path, f).value] else [];
      var last := if PathWalk(o, path, f).Some? then [PathWalk(o, path, f).value] else [];
      assert first + (PathItems(items[1..], path, f) + last) == (first + PathItems(items[1..], path, f)) + last;
    }
  }

  /** The depth walk as it runs: the object is overwritten in place, true asks the parent to erase it. */
  method TransformNode(obj: Obj, depth: nat, f: ByDepth) returns (now: Obj, remove: bool)
    ensures remove == Walk(obj, depth, f).None?
    ensures now == Kept(obj, Walk(obj, depth, f))
    decreases obj, 1
  {
    now, remove := obj, false;
    if obj.Pair? {
      var val, ignored := TransformNode(obj.val, depth, f);
      now := Pair(obj.pairKind, obj.key, val);
      return;
    }
    match f(obj, depth, obj.Tag()) {
      case Remove => remove := true;
      case Replace(r) => now := r;
      case Nothing =>
        if obj.List? {
          var items := TransformItems(obj.items, depth + 1, f);
          now := List(obj.listKind, items);
        } else if obj.Map? {
          var entries := TransformEntries(obj, depth + 1, f);
          now := Map(obj.mapKind, entries);
        }
    }
  }

  /** Erases while iterating: the cursor stays where an element was erased. */
  method TransformItems(list: seq<Obj>, depth: nat, f: ByDepth) returns (items: seq<Obj>)
    ensures items == WalkItems(list, depth, f)
    decreases list, 0
  {
    items := list;
    var pos := 0;
    ghost var n := 0;
    while pos < |items|
      invariant n <= |list| && pos <= |items| && items[pos..] == list[n..]
      invariant items[..pos] == WalkItems(list[..n], depth, f)
      decreases |list| - n
    {
      assert items[pos] == items[pos..][0] == list[n];
      assert items[pos + 1..] == items[pos..][1..] == list[n..][1..] == list[n + 1..];
      assert list[..n + 1] == list[..n] + [list[n]];
      WalkItemsSnoc(list[..n], list[n], depth, f);
      var val, remove := TransformNode(items[pos], depth, f);
      if remove {
        items := items[..pos] + items[pos + 1..];
      } else {
        items := items[pos := val];
        pos := pos + 1;
      }
      n := n + 1;
    }
    assert list[..n] == list && items[..pos] == items;
  }

  method TransformEntries(o: Obj, depth: nat, f: ByDepth) returns (entries: map<Key, Obj>)
    requires o.Map?
    ensures entries == WalkEntries(o, depth, f)
    decreases o, 0
  {
    entries := o.entries;
    var todo := entries.Keys;
    while todo != {}
      invariant todo <= o.entries.Keys
      invariant forall k :: k in todo ==> k in entries && entries[k] == o.entries[k]
      invariant forall k :: k !in todo && k in entries ==>
        k in o.entries && Walk(o.entries[k], depth, f) == Some(entries[k])
      invariant forall k :: k in o.entries && k !in todo && k !in entries ==> Walk(o.entries[k], depth, f).None?
    {
      var k :| k in todo;
      var val, remove := TransformNode(entries[k], depth, f);
      if remove {
        entries := entries - {k};
      } else {
        entries := entries[k := val];
      }
      todo := todo - {k};
    }
  }

  method TransformPath(obj: Obj, path: seq<Key>, f: ByPath) returns (now: Obj, remove: bool)
    ensures remove == PathWalk(obj, path, f).None?
    ensures now == Kept(obj, PathWalk(obj, path, f))
    decreases obj, 1
  {
    now, remove := obj, false;
    if obj.Pair? {
      var val, ignored := TransformPath(obj.val, path + [obj.key], f);
      now := Pair(obj.pairKind, obj.key, val);
      return;
    }
    match f(obj, path) {
      case Remove => remove := true;
      case Replace(r) => now := r;
      case Nothing =>
        if obj.List? {
          var items := TransformPathItems(obj.items, path, f);
          now := List(obj.listKind, items);
        } else if obj.Map? {
          var entries := TransformPathEntries(obj, path, f);
          now := Map(obj.mapKind, entries);
        }
    }
  }

  method TransformPathItems(list: seq<Obj>, path: seq<Key>, f: ByPath) returns (items: seq<Obj>)
    ensures items == PathItems(list, path, f)
    decreases list, 0
  {
    items := list;
    var pos := 0;
    ghost var n := 0;
    while pos < |items|
      invariant n <= |list| && pos <= |items| && items[pos..] == list[n..]
      invariant items[..pos] == PathItems(list[..n], path, f)
      decreases |list| - n
    {
      assert items[pos] == items[pos..][0] == list[n];
      assert items[pos + 1..] == items[pos..][1..] == list[n..][1..] == list[n + 1..];
      assert list[..n + 1] == list[..n] + [list[n]];
      PathItemsSnoc(list[..n], list[n], path, f);
      var val, remove := TransformPath(items[pos], path, f);
      if remove {
        items := items[..pos] + items[pos + 1..];
      } else {
        items := items[pos := val];
        pos := pos + 1;
      }
      n := n + 1;
    }
    assert list[..n] == list && items[..pos] == items;
  }

  method TransformPathEntries(o: Obj, path: seq<Key>, f: ByPath) returns (entries: map<Key, Obj>)
    requires o.Map?
    ensures entries == PathEntries(o, path, f)
    decreases o, 0
  {
    entries := o.entries;
    var todo := entries.Keys;
    while todo != {}
      invariant todo <= o.entries.Keys
      invariant forall k :: k in todo ==> k in entries && entries[k] == o.entries[k]
      invariant forall k :: k !in todo && k in entries ==>
        k in o.entries && PathWalk(o.entries[k], path + [k], f) == Some(entries[k])
      invariant forall k :: k in o.entries && k !in todo && k !in entries ==>
        PathWalk(o.entries[k], path + [k], f).None?
    {
      var k :| k in todo;
      var val, remove := TransformPath(entries[k], path + [k], f);
      if remove {
        entries := entries - {k};
      } else {
        entries := entries[k := val];
      }
      todo := todo - {k};
    }
  }

  /** The public walk by depth starts at depth zero; the root itself cannot be erased. */
  method TransformTree(obj: Obj, f: ByDepth) returns (now: Obj)
    ensures now == Kept(obj, Walk(obj, 0, f))
  {
    var ignored;
    now, ignored := TransformNode(obj, 0, f);
  }

  /** The public walk by path starts at the entries of a map with the empty path. */
  method TransformMap(o: Obj, f: ByPath) returns (entries: map<Key, Obj>)
    requires o.Map?
    ensures entries == PathEntries(o, [], f)
  {
    entries := TransformPathEntries(o, [], f);
  }

  // ---- laws -------------------------------------------------------------

  /** A callback that always says "nothing" leaves every tree as it is. */
  lemma {:induction false} NothingIsIdentity(o: Obj, depth: nat, f: ByDepth)
    requires forall x, d, t :: f(x, d, t) == Nothing
    ensures Walk(o, depth, f) == Some(o)
    decreases o, 1
  {
    match o
    case List(_, items) => NothingItems(items, depth + 1, f);
    case Map(_, m) =>
      forall k | k in m ensures Walk(m[k], depth + 1, f) == Some(m[k]) {
        NothingIsIdentity(m[k], depth + 1, f);
      }
      assert WalkEntries(o, depth + 1, f) == m;
    case Pair(_, _, v) => NothingIsIdentity(v, depth, f);
    case _ =>
  }

  lemma {:induction false} NothingItems(items: seq<Obj>, depth: nat, f: ByDepth)
    requires forall x, d, t :: f(x, d, t) == Nothing
    ensures WalkItems(items, depth, f) == items
    decreases items, 0
  {
    if items != [] {
      NothingIsIdentity(items[0], depth, f);
      NothingItems(items[1..], depth, f);
    }
  }

  /** The two walks agree on every tree when the callback looks at the value only. */
  lemma {:induction false} WalksAgree(o: Obj, depth: nat, path: seq<Key>, f: ByDepth, g: ByPath)
    requires forall x: Obj, d, p :: f(x, d, x.Tag()) == g(x, p)
    ensures Walk(o, depth, f) == PathWalk(o, path, g)
    decreases o, 1
  {
    assert f(o, depth, o.Tag()) == g(o, path);
    match o
    case List(_, items) => ItemsAgree(items, depth + 1, path, f, g);
    case Map(_, m) => EntriesAgree(o, depth + 1, path, f, g);
    case Pair(_, k, v) => WalksAgree(v, depth, path + [k], f, g);
    case _ =>
  }

  lemma {:induction false} ItemsAgree(items: seq<Obj>, depth: nat, path: seq<Key>, f: ByDepth, g: ByPath)
    requires forall x: Obj, d, p :: f(x, d, x.Tag()) == g(x, p)
    ensures WalkItems(items, depth, f) == PathItems(items, path, g)
    decreases items, 0
  {
    if items != [] {
      WalksAgree(items[0], depth, path, f, g);
      ItemsAgree(items[1..], depth, path, f, g);
    }
  }

  /** So does the walk that starts at the entries of a map. */
  lemma {:induction false} EntriesAgree(o: Obj, depth: nat, path: seq<Key>, f: ByDepth, g: ByPath)
    requires o.Map? && forall x: Obj, d, p :: f(x, d, x.Tag()) == g(x, p)
    ensures WalkEntries(o, depth, f) == PathEntries(o, path, g)
    decreases o, 0
  {
    var m := o.entries;
    forall k | k in m ensures Walk(m[k], depth, f) == PathWalk(m[k], path + [k], g) {
      WalksAgree(m[k], depth, path + [k], f, g);
    }
  }

  // ---- pruning ----------------------------------------------------------

  /** Removes the leaves that satisfy a predicate. */
  function Pruning(p: Obj -> bool): ByDepth {
    (o: Obj, d: nat, t: Tag) => if !o.IsContainer() && p(o) then Remove else Nothing
  }

  /** No list item and no map entry is a leaf that satisfies the predicate. */
  ghost predicate Pruned(o: Obj, p: Obj -> bool) {
    match o
    case List(_, items) => AllPruned(items, p)
    case Map(_, m) => forall k :: k in m ==> Stays(m[k], p) && Pruned(m[k], p)
    case Pair(_, _, v) => Pruned(v, p)
    case _ => true
  }

  ghost predicate AllPruned(items: seq<Obj>, p: Obj -> bool) {
    forall i :: 0 <= i < |items| ==> Stays(items[i], p) && Pruned(items[i], p)
  }

  predicate Stays(o: Obj, p: Obj -> bool) { o.IsContainer() || !p(o) }

  /** Pruning leaves no such leaf in any list or map, and a pruned tree alone. */
  lemma {:induction false} PruneLaw(o: Obj, depth: nat, p: Obj -> bool)
    ensures Walk(o, depth, Pruning(p)).Some? <==> Stays(o, p)
    ensures Stays(o, p) ==> var r := Walk(o, depth, Pruning(p)).value; Pruned(r, p) && Stays(r, p)
    decreases o, 1
  {
    assert Pruning(p)(o, depth, o.Tag()) == if Stays(o, p) then Nothing else Remove;
    match o
    case List(_, items) =>
      PruneItems(items, depth + 1, p);
      assert Walk(o, depth, Pruning(p)).value.items == WalkItems(items, depth + 1, Pruning(p));
    case Map(_, m) =>
      forall k | k in m
        ensures Walk(m[k], depth + 1, Pruning(p)).Some? ==>
          var r := Walk(m[k], depth + 1, Pruning(p)).value; Pruned(r, p) && Stays(r, p)
      {
        PruneLaw(m[k], depth + 1, p);
      }
      assert Walk(o, depth, Pruning(p)).value.entries == WalkEntries(o, depth + 1, Pruning(p));
    case Pair(_, _, v) => PruneLaw(v, depth, p);
    case _ =>
  }

  lemma {:induction false} PruneItems(items: seq<Obj>, depth: nat, p: Obj -> bool)
    ensures AllPruned(WalkItems(items, depth, Pruning(p)), p)
    decreases items, 0
  {
    if items != [] {
      PruneLaw(items[0], depth, p);
      PruneItems(items[1..], depth, p);
      var r, rest := WalkItems(items, depth, Pruning(p)), WalkItems(items[1..], depth, Pruning(p));
      if Stays(items[0], p) {
        var first := Walk(items[0], depth, Pruning(p)).value;
        assert r == [first] + rest;
        forall i | 0 <= i < |r| ensures Stays(r[i], p) && Pruned(r[i], p) {
          assert r[i] == if i == 0 then first else rest[i - 1];
        }
      } else {
        assert r == rest;
      }
    }
  }

  lemma {:induction false} PrunedStays(o: Obj, depth: nat, p: Obj -> bool)
    requires Pruned(o, p) && Stays(o, p)
    ensures Walk(o, depth, Pruning(p)) == Some(o)
    decreases o, 1
  {
    match o
    case List(_, items) => PrunedItemsStay(items, depth + 1, p);
    case Map(_, m) =>
      forall k | k in m ensures Walk(m[k], depth + 1, Pruning(p)) == Some(m[k]) {
        PrunedStays(m[k], depth + 1, p);
      }
      assert WalkEntries(o, depth + 1, Pruning(p)) == m;
    case Pair(_, _, v) => if Stays(v, p) { PrunedStays(v, depth, p); }
    case _ =>
  }

  lemma {:induction false} PrunedItemsStay(items: seq<Obj>, depth: nat, p: Obj -> bool)
    requires AllPruned(items, p)
    ensures WalkItems(items, depth, Pruning(p)) == items
    decreases items, 0
  {
    if items != [] {
      PrunedStays(items[0], depth, p);
      PrunedItemsStay(items[1..], depth, p);
    }
  }

  /** Pruning twice is pruning once. */
  lemma {:induction false} PruneTwice(o: Obj, depth: nat, p: Obj -> bool)
    requires o.IsContainer()
    ensures Walk(o, depth, Pruning(p)).Some?
    ensures Walk(Walk(o, depth, Pruning(p)).value, depth, Pruning(p)) == Walk(o, depth, Pruning(p))
  {
    PruneLaw(o, depth, p);
    assert Stays(o, p);
    PrunedStays(Walk(o, depth, Pruning(p)).value, depth, p);
  }

  // ---- empty lists ------------------------------------------------------

  predicate IsEmptyList(o: Obj) { o.List? && o.items == [] }

  /** Removes empty lists. */
  function Sweeping(): ByDepth {
    (o: Obj, d: nat, t: Tag) => if IsEmptyList(o) then Remove else Nothing
  }

  /** An empty list at any depth. */
  ghost predicate HasEmpty(o: Obj) {
    match o
    case List(_, items) => items == [] || AnyEmpty(items)
    case Map(_, m) => exists k :: k in m && HasEmpty(m[k])
    case Pair(_, _, v) => HasEmpty(v)
    case _ => false
  }

  ghost predicate AnyEmpty(items: seq<Obj>) { exists i :: 0 <= i < |items| && HasEmpty(items[i]) }

  /** A list of nothing but empty lists, or a pair whose value is an empty list, at any depth. */
  ghost predicate HasHollow(o: Obj) {
    match o
    case List(_, items) => (items != [] && AllEmptyLists(items)) || AnyHollow(items)
    case Map(_, m) => exists k :: k in m && HasHollow(m[k])
    case Pair(_, _, v) => IsEmptyList(v) || HasHollow(v)
    case _ => false
  }

  predicate AllEmptyLists(items: seq<Obj>) { forall i :: 0 <= i < |items| ==> IsEmptyList(items[i]) }

  ghost predicate AnyHollow(items: seq<Obj>) { exists i :: 0 <= i < |items| && HasHollow(items[i]) }

  lemma AnyFirst(items: seq<Obj>)
    requires items != []
    ensures AnyEmpty(items) <==> HasEmpty(items[0]) || AnyEmpty(items[1..])
    ensures AnyHollow(items) <==> HasHollow(items[0]) || AnyHollow(items[1..])
    ensures AllEmptyLists(items) <==> IsEmptyList(items[0]) && AllEmptyLists(items[1..])
  {
  }

  /** One walk that removes empty lists leaves an empty list behind if and only if the tree has
      a list of nothing but empty lists, or a pair whose value is one: a list is asked before
      its items are removed, and a pair keeps its value. */
  lemma {:induction false} SweepLaw(o: Obj, depth: nat)
    ensures Walk(o, depth, Sweeping()).Some? <==> !IsEmptyList(o)
    ensures !IsEmptyList(o) ==> (HasEmpty(Walk(o, depth, Sweeping()).value) <==> HasHollow(o))
    decreases o, 1
  {
    var f := Sweeping();
    assert f(o, depth, o.Tag()) == if IsEmptyList(o) then Remove else Nothing;
    match o
    case List(_, items) =>
      SweepItems(items, depth + 1);
    case Map(_, _) => SweepEntries(o, depth + 1);
    case Pair(_, _, v) => SweepLaw(v, depth);
    case _ =>
  }

  lemma {:induction false} SweepEntries(o: Obj, depth: nat)
    requires o.Map?
    ensures HasEmpty(Map(o.mapKind, WalkEntries(o, depth, Sweeping()))) <==> HasHollow(o)
    decreases o, 0
  {
    var m, now := o.entries, WalkEntries(o, depth, Sweeping());
    forall k | k in m
      ensures k in now <==> !IsEmptyList(m[k])
      ensures k in now ==> (HasEmpty(now[k]) <==> HasHollow(m[k]))
    {
      SweepLaw(m[k], depth);
    }
    assert forall k :: k in m && IsEmptyList(m[k]) ==> !HasHollow(m[k]);
    if k :| k in m && HasHollow(m[k]) {
      assert HasEmpty(now[k]);
    }
    if k :| k in now && HasEmpty(now[k]) {
      assert HasHollow(m[k]);
    }
  }

  lemma {:induction false} SweepItems(items: seq<Obj>, depth: nat)
    ensures var now := WalkItems(items, depth, Sweeping());
      && (now == [] <==> AllEmptyLists(items))
      && (AnyEmpty(now) <==> AnyHollow(items))
    decreases items, 0
  {
    if items != [] {
      var f := Sweeping();
      AnyFirst(items);
      SweepLaw(items[0], depth);
      SweepItems(items[1..], depth);
      var rest := WalkItems(items[1..], depth, f);
      if IsEmptyList(items[0]) {
        assert WalkItems(items, depth, f) == rest;
        assert !HasHollow(items[0]);
      } else {
        var now := [Walk(items[0], depth, f).value] + rest;
        assert WalkItems(items, depth, f) == now && now[1..] == rest;
        AnyFirst(now);
      }
    }
  }
}
