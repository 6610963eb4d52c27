/** What the two tree walks do with each answer of the callback, said by recursion over the tree. */
module TransformLaws {
  import opened Dom
  import opened Transform

  // ---- one node ---------------------------------------------------------

  /** A node that is not a pair is asked once. Removed, it is gone; replaced, it is exactly the new
      object, which is not walked into; left alone, a leaf is as it was. A pair is not asked and stays. */
  lemma AnswerLaw(o: Obj, depth: nat, f: ByDepth)
    ensures o.Pair? ==> Walk(o, depth, f).Some?
    ensures !o.Pair? ==>
      match f(o, depth, o.Tag())
      case Remove => Walk(o, depth, f) == None
      case Replace(r) => Walk(o, depth, f) == Some(r)
      case Nothing => Walk(o, depth, f).Some? && (!o.IsContainer() ==> Walk(o, depth, f) == Some(o))
  {
  }

  lemma PathAnswerLaw(o: Obj, path: seq<Key>, f: ByPath)
    ensures o.Pair? ==> PathWalk(o, path, f).Some?
    ensures !o.Pair? ==>
      match f(o, path)
      case Remove => PathWalk(o, path, f) == None
      case Replace(r) => PathWalk(o, path, f) == Some(r)
      case Nothing => PathWalk(o, path, f).Some? && (!o.IsContainer() ==> PathWalk(o, path, f) == Some(o))
  {
  }

  // ---- replacing, with depth --------------------------------------------

  /** Replaces the nodes that are chosen, by object and depth, with what is given for them. */
  function Replacing(chosen: (Obj, nat) -> bool, given: (Obj, nat, Tag) -> Obj): ByDepth {
    (o: Obj, d: nat, t: Tag) => if chosen(o, d) then Replace(given(o, d, t)) else Nothing
  }

  /** The tree with every chosen node replaced that lies below no other chosen node. The depth
      is the number of lists and maps around a node. */
  function Replaced(o: Obj, depth: nat, chosen: (Obj, nat) -> bool, given: (Obj, nat, Tag) -> Obj): Obj
    decreases o, 1
  {
    if o.Pair? then Pair(o.pairKind, o.key, Replaced(o.val, depth, chosen, given))
    else if chosen(o, depth) then given(o, depth, o.Tag())
    else if o.List? then List(o.listKind, ReplacedItems(o.items, depth + 1, chosen, given))
    else if o.Map? then
      Map(o.mapKind, map k | k in o.entries :: Replaced(o.entries[k], depth + 1, chosen, given))
    else o
  }

  function ReplacedItems(items: seq<Obj>, depth: nat, chosen: (Obj, nat) -> bool,
                         given: (Obj, nat, Tag) -> Obj): (r: seq<Obj>)
    ensures |r| == |items|
    decreases items, 0
  {
    if items == [] then []
    else [Replaced(items[0], depth, chosen, given)] + ReplacedItems(items[1..], depth, chosen, given)
  }

  /** Every node is asked with its own nesting depth and its own type, and exactly the chosen ones change. */
  lemma {:induction false} ReplacedLaw(o: Obj, depth: nat, chosen: (Obj, nat) -> bool, given: (Obj, nat, Tag) -> Obj)
    ensures Walk(o, depth, Replacing(chosen, given)) == Some(Replaced(o, depth, chosen, given))
    decreases o, 1
  {
    var f := Replacing(chosen, given);
    match o
    case Pair(_, _, v) => ReplacedLaw(v, depth, chosen, given);
    case List(_, items) =>
      if !chosen(o, depth) { ReplacedItemsLaw(items, depth + 1, chosen, given); }
    case Map(_, m) =>
      if !chosen(o, depth) {
        forall k | k in m ensures Walk(m[k], depth + 1, f) == Some(Replaced(m[k], depth + 1, chosen, given)) {
          ReplacedLaw(m[k], depth + 1, chosen, given);
        }
        assert WalkEntries(o, depth + 1, f) == map k | k in m :: Replaced(m[k], depth + 1, chosen, given);
      }
    case _ =>
  }

  lemma {:induction false} ReplacedItemsLaw(items: seq<Obj>, depth: nat, chosen: (Obj, nat) -> bool,
                                            given: (Obj, nat, Tag) -> Obj)
    ensures WalkItems(items, depth, Replacing(chosen, given)) == ReplacedItems(items, depth, chosen, given)
    decreases items, 0
  {
    if items != [] {
      ReplacedLaw(items[0], depth, chosen, given);
      ReplacedItemsLaw(items[1..], depth, chosen, given);
    }
  }

  // ---- replacing, with paths --------------------------------------------

  function PathReplacing(chosen: (Obj, seq<Key>) -> bool, given: (Obj, seq<Key>) -> Obj): ByPath {
    (o: Obj, p: seq<Key>) => if chosen(o, p) then Replace(given(o, p)) else Nothing
  }

  /** The same by path: the keys of the maps and pairs around a node, from the root down. */
  function PathReplaced(o: Obj, path: seq<Key>, chosen: (Obj, seq<Key>) -> bool, given: (Obj, seq<Key>) -> Obj): Obj
    decreases o, 1
  {
    if o.Pair? then Pair(o.pairKind, o.key, PathReplaced(o.val, path + [o.key], chosen, given))
    else if chosen(o, path) then given(o, path)
    else if o.List? then List(o.listKind, PathReplacedItems(o.items, path, chosen, given))
    else if o.Map? then Map(o.mapKind, PathReplacedEntries(o, path, chosen, given))
    else o
  }

  function PathReplacedItems(items: seq<Obj>, path: seq<Key>, chosen: (Obj, seq<Key>) -> bool,
                             given: (Obj, seq<Key>) -> Obj): (r: seq<Obj>)
    ensures |r| == |items|
    decreases items, 0
  {
    if items == [] then []
    else [PathReplaced(items[0], path, chosen, given)] + PathReplacedItems(items[1..], path, chosen, given)
  }

  function PathReplacedEntries(o: Obj, path: seq<Key>, chosen: (Obj, seq<Key>) -> bool,
                               given: (Obj, seq<Key>) -> Obj): map<Key, Obj>
    requires o.Map?
    decreases o, 0
  {
    map k | k in o.entries :: PathReplaced(o.entries[k], path + [k], chosen, given)
  }

  /** Every node is asked with its own path, and exactly the chosen ones change. */
  lemma {:induction false} PathReplacedLaw(o: Obj, path: seq<Key>, chosen: (Obj, seq<Key>) -> bool,
                                           given: (Obj, seq<Key>) -> Obj)
    ensures PathWalk(o, path, PathReplacing(chosen, given)) == Some(PathReplaced(o, path, chosen, given))
    decreases o, 1
  {
    match o
    case Pair(_, k, v) => PathReplacedLaw(v, path + [k], chosen, given);
    case List(_, items) =>
      if !chosen(o, path) { PathReplacedItemsLaw(items, path, chosen, given); }
    case Map(_, m) =>
      if !chosen(o, path) { PathReplacedEntriesLaw(o, path, chosen, given); }
    case _ =>
  }

  lemma {:induction false} PathReplacedItemsLaw(items: seq<Obj>, path: seq<Key>, chosen: (Obj, seq<Key>) -> bool,
                                                given: (Obj, seq<Key>) -> Obj)
    ensures PathItems(items, path, PathReplacing(chosen, given)) == PathReplacedItems(items, path, chosen, given)
    decreases items, 0
  {
    if items != [] {
      PathReplacedLaw(items[0], path, chosen, given);
      PathReplacedItemsLaw(items[1..], path, chosen, given);
    }
  }

  /** So it is for the walk that starts at the entries of a parameter map, with the empty path. */
  lemma {:induction false} PathReplacedEntriesLaw(o: Obj, path: seq<Key>, chosen: (Obj, seq<Key>) -> bool,
                                                  given: (Obj, seq<Key>) -> Obj)
    requires o.Map?
    ensures PathEntries(o, path, PathReplacing(chosen, given)) == PathReplacedEntries(o, path, chosen, given)
    decreases o, 0
  {
    var m, f := o.entries, PathReplacing(chosen, given);
    forall k | k in m ensures PathWalk(m[k], path + [k], f) == Some(PathReplaced(m[k], path + [k], chosen, given)) {
      PathReplacedLaw(m[k], path + [k], chosen, given);
    }
  }

  // ---- replacing leaves -------------------------------------------------

  function LeafReplacing(p: Obj -> bool, g: Obj -> Obj): ByDepth {
    (o: Obj, d: nat, t: Tag) => if !o.IsContainer() && p(o) then Replace(g(o)) else Nothing
  }

  /** The tree with g applied to the leaves that satisfy p, at every depth. */
  function MapLeaves(o: Obj, p: Obj -> bool, g: Obj -> Obj): Obj
    decreases o, 1
  {
    match o
    case List(kind, items) => List(kind, MapLeavesAll(items, p, g))
    case Map(kind, m) => Map(kind, map k | k in m :: MapLeaves(m[k], p, g))
    case Pair(kind, k, v) => Pair(kind, k, MapLeaves(v, p, g))
    case _ => if p(o) then g(o) else o
  }

  function MapLeavesAll(items: seq<Obj>, p: Obj -> bool, g: Obj -> Obj): (r: seq<Obj>)
    ensures |r| == |items|
    decreases items, 0
  {
    if items == [] then [] else [MapLeaves(items[0], p, g)] + MapLeavesAll(items[1..], p, g)
  }

  /** Replacing the leaves that satisfy p by g of them gives exactly that tree, root included. */
  lemma {:induction false} LeavesReplaced(o: Obj, depth: nat, p: Obj -> bool, g: Obj -> Obj)
    ensures Walk(o, depth, LeafReplacing(p, g)) == Some(MapLeaves(o, p, g))
    decreases o, 1
  {
    var f := LeafReplacing(p, g);
    assert o.IsContainer() ==> f(o, depth, o.Tag()) == Nothing;
    match o
    case List(_, items) => LeafItemsReplaced(items, depth + 1, p, g);
    case Map(_, m) =>
      forall k | k in m ensures Walk(m[k], depth + 1, f) == Some(MapLeaves(m[k], p, g)) {
        LeavesReplaced(m[k], depth + 1, p, g);
      }
      assert WalkEntries(o, depth + 1, f) == map k | k in m :: MapLeaves(m[k], p, g);
    case Pair(_, _, v) => LeavesReplaced(v, depth, p, g);
    case _ =>
  }

  lemma {:induction false} LeafItemsReplaced(items: seq<Obj>, depth: nat, p: Obj -> bool, g: Obj -> Obj)
    ensures WalkItems(items, depth, LeafReplacing(p, g)) == MapLeavesAll(items, p, g)
    decreases items, 0
  {
    if items != [] {
      LeavesReplaced(items[0], depth, p, g);
      LeafItemsReplaced(items[1..], depth, p, g);
    }
  }

  /** The path walk does the same. */
  lemma PathLeavesReplaced(o: Obj, path: seq<Key>, p: Obj -> bool, g: Obj -> Obj)
    ensures PathWalk(o, path, (x: Obj, q: seq<Key>) => LeafReplacing(p, g)(x, 0, x.Tag())) == Some(MapLeaves(o, p, g))
  {
    var f := LeafReplacing(p, g);
    var byPath: ByPath := (x: Obj, q: seq<Key>) => f(x, 0, x.Tag());
    forall x: Obj, d, q ensures f(x, d, x.Tag()) == byPath(x, q) {
    }
    LeavesReplaced(o, 0, p, g);
    WalksAgree(o, 0, path, f, byPath);
  }

  // ---- removing ---------------------------------------------------------

  /** Removes the nodes that are chosen by object and depth. */
  function Removing(chosen: (Obj, nat) -> bool): ByDepth {
    (o: Obj, d: nat, t: Tag) => if chosen(o, d) then Remove else Nothing
  }

  predicate Goes(o: Obj, depth: nat, chosen: (Obj, nat) -> bool) { !o.Pair? && chosen(o, depth) }

  /** The tree without the chosen list elements and map entries; a pair keeps its value. */
  function Thinned(o: Obj, depth: nat, chosen: (Obj, nat) -> bool): Obj
    decreases o, 1
  {
    match o
    case List(kind, items) => List(kind, ThinnedItems(items, depth + 1, chosen))
    case Map(kind, m) =>
      Map(kind, map k | k in m && !Goes(m[k], depth + 1, chosen) :: Thinned(m[k], depth + 1, chosen))
    case Pair(kind, k, v) => Pair(kind, k, if Goes(v, depth, chosen) then v else Thinned(v, depth, chosen))
    case _ => o
  }

  function ThinnedItems(items: seq<Obj>, depth: nat, chosen: (Obj, nat) -> bool): seq<Obj>
    decreases items, 0
  {
    if items == [] then []
    else
      (if Goes(items[0], depth, chosen) then [] else [Thinned(items[0], depth, chosen)])
      + ThinnedItems(items[1..], depth, chosen)
  }

  /** Exactly the chosen nodes go, containers as a whole, wherever they are list elements, map
      entries or the root. */
  lemma {:induction false} ThinnedLaw(o: Obj, depth: nat, chosen: (Obj, nat) -> bool)
    ensures Walk(o, depth, Removing(chosen)) ==
      if Goes(o, depth, chosen) then None else Some(Thinned(o, depth, chosen))
    decreases o, 1
  {
    var f := Removing(chosen);
    match o
    case List(_, items) =>
      if !chosen(o, depth) { ThinnedItemsLaw(items, depth + 1, chosen); }
    case Map(_, m) =>
      if !chosen(o, depth) {
        forall k | k in m
          ensures Walk(m[k], depth + 1, f)
            == if Goes(m[k], depth + 1, chosen) then None else Some(Thinned(m[k], depth + 1, chosen))
        {
          ThinnedLaw(m[k], depth + 1, chosen);
        }
        assert WalkEntries(o, depth + 1, f)
          == map k | k in m && !Goes(m[k], depth + 1, chosen) :: Thinned(m[k], depth + 1, chosen);
      }
    case Pair(_, _, v) => ThinnedLaw(v, depth, chosen);
    case _ =>
  }

  lemma {:induction false} ThinnedItemsLaw(items: seq<Obj>, depth: nat, chosen: (Obj, nat) -> bool)
    ensures WalkItems(items, depth, Removing(chosen)) == ThinnedItems(items, depth, chosen)
    decreases items, 0
  {
    if items != [] {
      ThinnedLaw(items[0], depth, chosen);
      ThinnedItemsLaw(items[1..], depth, chosen);
    }
  }

  /** The path walk removes by object alone exactly the same. */
  lemma PathThinned(o: Obj, path: seq<Key>, chosen: Obj -> bool)
    ensures PathWalk(o, path, (x: Obj, q: seq<Key>) => if chosen(x) then Remove else Nothing) ==
      if !o.Pair? && chosen(o) then None else Some(Thinned(o, 0, (x: Obj, d: nat) => chosen(x)))
  {
    var byObject := (x: Obj, d: nat) => chosen(x);
    var f := Removing(byObject);
    var byPath: ByPath := (x: Obj, q: seq<Key>) => if chosen(x) then Remove else Nothing;
    forall x: Obj, d, q ensures f(x, d, x.Tag()) == byPath(x, q) {
    }
    ThinnedLaw(o, 0, byObject);
    WalksAgree(o, 0, path, f, byPath);
  }
}
