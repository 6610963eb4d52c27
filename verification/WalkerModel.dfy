/** The event stream of an object tree, and a reader that checks every mark in it while it
    builds the tree again. */
module WalkerModel {
  import opened Dom

  datatype State = First | Last | Indeterminate

  function GetState(index: nat, size: nat): State {
    if index == size then Last else if index == 1 then First else Indeterminate
  }

  datatype Event =
    | Visit(obj: Obj, tag: Tag, depth: nat, state: State)
    | Open(tag: Tag, depth: nat, size: nat)
    | Close(tag: Tag, depth: nat, state: State, parent: Tag)
    | PairKey(key: Key, depth: nat)
    | Simple(pair: Obj, depth: nat, state: State)

  function Traverse(o: Obj, depth: nat, state: State, parent: Tag, ord: Order): seq<Event>
    requires Visits(ord)
    decreases o, 2
  {
    match o
    case List(kind, items) =>
      // a deque is read as a vector, which it is not, so an empty vector is walked
      if kind == Deque then [Open(ListTag(Vector), depth, 0), Close(ListTag(Vector), depth, state, parent)]
      else
        [Open(ListTag(kind), depth, |items|)] + TraverseItems(o, 0, depth + 1, ord)
        + [Close(ListTag(kind), depth, state, parent)]
    case Map(kind, m) =>
      // the walk over a property map closes a parameter map
      var closing := if kind == Prop then Param else kind;
      [Open(MapTag(kind), depth, |m|)] + TraverseEntries(o, ord(m), 0, depth + 1, ord)
        + [Close(MapTag(closing), depth, state, parent)]
    case Pair(kind, k, v) => TraversePair(kind, k, v, depth, state, parent, ord)
    case _ => [Visit(o, o.Tag(), depth, state)]
  }

  function TraversePair(kind: PairKind, k: Key, v: Obj, depth: nat, state: State, parent: Tag, ord: Order): seq<Event>
    requires Visits(ord)
    decreases v, 3
  {
    if v.IsIntrinsicContainer() then
      [Open(PairTag(kind), depth, 1), PairKey(k, depth)] + Traverse(v, depth, state, PairTag(kind), ord)
        + [Close(PairTag(kind), depth, state, parent)]
    else [Simple(Pair(kind, k, v), depth, state)]
  }

  /** The children from the i-th on. */
  function TraverseItems(o: Obj, i: nat, depth: nat, ord: Order): seq<Event>
    requires Visits(ord) && o.List? && i <= |o.items|
    decreases o, 1, |o.items| - i
  {
    if i == |o.items| then []
    else Traverse(o.items[i], depth, GetState(i + 1, |o.items|), o.Tag(), ord) + TraverseItems(o, i + 1, depth, ord)
  }

  function TraverseEntries(o: Obj, keys: seq<Key>, i: nat, depth: nat, ord: Order): seq<Event>
    requires Visits(ord) && o.Map? && i <= |keys| && forall k :: k in keys ==> k in o.entries
    decreases o, 1, |keys| - i
  {
    if i == |keys| then []
    else
      TraversePair(o.mapKind, keys[i], o.entries[keys[i]], depth, GetState(i + 1, |o.entries|), o.Tag(), ord)
        + TraverseEntries(o, keys, i + 1, depth, ord)
  }

  // ---- the reader -------------------------------------------------------

  /** A container being read: its tag and depth, the size announced, and what came so far;
      a pair also keeps the mark of its value. */
  datatype Node = Node(tag: Tag, depth: nat, size: nat, key: Option<Key>, parts: seq<Obj>, marks: seq<State>)

  /** `root` is the type announced as the parent of everything. A lenient reader takes a property
      map that is closed as a parameter map. */
  datatype Reader = Reader(open: seq<Node>, done: Option<Obj>, lenient: bool, root: Tag)

  /** The type with which a container is closed. */
  function Closing(r: Reader, tag: Tag): Tag { if r.lenient && tag == MapTag(Prop) then MapTag(Param) else tag }

  /** The depth at which the parts of a container are announced. */
  function PartDepth(n: Node): nat { if n.tag.PairTag? then n.depth else n.depth + 1 }

  /** Hands a finished object to the innermost open container, which checks depth and mark;
      a map takes only its own kind of pairs. */
  function Deliver(r: Reader, o: Obj, depth: nat, state: State): Option<Reader> {
    if r.open == [] then if r.done.None? && state == Last && depth == 0 then Some(r.(done := Some(o))) else None
    else
      var n := r.open[0];
      var k := |n.parts| + 1;
      if depth != PartDepth(n) || k > n.size then None
      else if n.tag.MapTag? && !(o.Pair? && o.pairKind == n.tag.mapKind) then None
      else if !n.tag.PairTag? && state != GetState(k, n.size) then None
      else
        var marks := if n.tag.PairTag? then n.marks + [state] else n.marks;
        Some(r.(open := [n.(parts := n.parts + [o], marks := marks)] + r.open[1..]))
  }

  function EntriesOf(parts: seq<Obj>): map<Key, Obj> {
    if parts == [] then map[]
    else
      var m := EntriesOf(parts[..|parts| - 1]);
      var p := parts[|parts| - 1];
      if p.Pair? then m[p.key := p.val] else m
  }

  /** The object a complete container stands for. */
  function Finish(n: Node): Option<Obj> {
    if |n.parts| != n.size then None
    else
      match n.tag
      case ListTag(kind) => Some(List(kind, n.parts))
      case MapTag(kind) => Some(Map(kind, EntriesOf(n.parts)))
      case PairTag(kind) =>
        if n.key.Some? && |n.parts| == 1 && n.parts[0].IsIntrinsicContainer()
        then Some(Pair(kind, n.key.value, n.parts[0]))
        else None
      case _ => None
  }

  function Read(r: Reader, e: Event): Option<Reader> {
    match e
    case Visit(o, tag, depth, state) => if tag != o.Tag() then None else Deliver(r, o, depth, state)
    case Simple(p, depth, state) =>
      if !p.Pair? || p.val.IsIntrinsicContainer() then None else Deliver(r, p, depth, state)
    case Open(tag, depth, size) =>
      var at := if r.open == [] then 0 else PartDepth(r.open[0]);
      if depth != at then None else Some(r.(open := [Node(tag, depth, size, None, [], [])] + r.open))
    case PairKey(k, depth) =>
      if r.open == [] || !r.open[0].tag.PairTag? || r.open[0].depth != depth || r.open[0].key.Some? then None
      else Some(r.(open := [r.open[0].(key := Some(k))] + r.open[1..]))
    case Close(tag, depth, state, parent) =>
      if r.open == [] then None
      else
        var n := r.open[0];
        var o := Finish(n);
        if o.None? || tag != Closing(r, n.tag) || n.depth != depth then None
        else if parent != (if |r.open| > 1 then r.open[1].tag else r.root) then None
        else if n.tag.PairTag? && n.marks != [state] then None
        else Deliver(r.(open := r.open[1..]), o.value, depth, state)
  }

  function ReadAll(r: Reader, events: seq<Event>): Option<Reader>
    decreases |events|
  {
    if events == [] then Some(r)
    else
      var next := Read(r, events[0]);
      if next.None? then None else ReadAll(next.value, events[1..])
  }

  lemma {:induction false} ReadAppend(r: Reader, a: seq<Event>, b: seq<Event>)
    ensures ReadAll(r, a + b) == match ReadAll(r, a) case None => None case Some(mid) => ReadAll(mid, b)
    decreases |a|
  {
    if a == [] {
      assert a + b == b;
    } else {
      assert (a + b)[0] == a[0] && (a + b)[1..] == a[1..] + b;
      var next := Read(r, a[0]);
      if next.Some? {
        ReadAppend(next.value, a[1..], b);
      }
    }
  }

  lemma {:induction false} ReadOne(r: Reader, e: Event)
    ensures ReadAll(r, [e]) == Read(r, e)
  {
  }

  // ---- what the stream tells --------------------------------------------

  /** A property map that the walk reaches: its stream is not well bracketed. */
  ghost predicate HasPropMap(o: Obj)
    decreases o
  {
    match o
    case List(kind, items) => kind != Deque && exists i :: 0 <= i < |items| && HasPropMap(items[i])
    case Map(kind, m) => kind == Prop || exists k :: k in m && HasPropMap(m[k])
    case Pair(_, _, v) => HasPropMap(v)
    case _ => false
  }

  ghost predicate HasDeque(o: Obj)
    decreases o
  {
    match o
    case List(kind, items) => kind == Deque || exists i :: 0 <= i < |items| && HasDeque(items[i])
    case Map(kind, m) => exists k :: k in m && HasDeque(m[k])
    case Pair(_, _, v) => HasDeque(v)
    case _ => false
  }

  /** The tree as the walk sees it: every deque is an empty vector. */
  function Seen(o: Obj): Obj
    decreases o, 1
  {
    match o
    case List(kind, items) => if kind == Deque then List(Vector, []) else List(kind, SeenItems(items))
    case Map(kind, m) => Map(kind, map k | k in m :: Seen(m[k]))
    case Pair(kind, k, v) => Pair(kind, k, Seen(v))
    case _ => o
  }

  function SeenItems(items: seq<Obj>): (r: seq<Obj>)
    ensures |r| == |items|
    decreases items, 0
  {
    if items == [] then [] else [Seen(items[0])] + SeenItems(items[1..])
  }

  lemma {:induction false} SeenItemsAt(items: seq<Obj>, i: nat)
    requires i < |items|
    ensures SeenItems(items)[i] == Seen(items[i])
    decreases |items|
  {
    if i > 0 {
      SeenItemsAt(items[1..], i - 1);
    }
  }

  lemma {:induction false} SeenExactly(o: Obj)
    ensures Seen(o) == o <==> !HasDeque(o)
    decreases o
  {
    match o
    case List(kind, items) =>
      forall i | 0 <= i < |items| ensures SeenItems(items)[i] == items[i] <==> !HasDeque(items[i]) {
        SeenItemsAt(items, i);
        SeenExactly(items[i]);
      }
      if !HasDeque(o) {
        assert SeenItems(items) == items;
      }
    case Map(kind, m) =>
      forall k | k in m ensures Seen(m[k]) == m[k] <==> !HasDeque(m[k]) {
        SeenExactly(m[k]);
      }
      var s := map k | k in m :: Seen(m[k]);
      if k :| k in m && HasDeque(m[k]) {
        assert s[k] != m[k];
      } else {
        assert s == m;
      }
    case Pair(_, _, v) => SeenExactly(v);
    case _ =>
  }

  /** The reader can take an object announced at this depth by this parent. */
  predicate Expects(r: Reader, depth: nat, parent: Tag) {
    if r.open == [] then r.done.None? && depth == 0 && parent == r.root
    else depth == PartDepth(r.open[0]) && parent == r.open[0].tag
  }

  /** Reading the stream of one object comes to delivering the object as seen, or fails
      when a property map was reached. */
  function Told(r: Reader, o: Obj, depth: nat, state: State, bad: bool): Option<Reader> {
    if Fails(r, bad) then None else Deliver(r, Seen(o), depth, state)
  }

  /** A strict reader fails on a property map. */
  predicate Fails(r: Reader, bad: bool) { bad && !r.lenient }

  function With(r: Reader, n: Node): Reader { r.(open := [n] + r.open) }

  ghost predicate BadItems(items: seq<Obj>, i: nat) { exists j :: i <= j < |items| && HasPropMap(items[j]) }

  ghost predicate BadEntries(m: map<Key, Obj>, keys: seq<Key>, i: nat)
    requires forall k :: k in keys ==> k in m
  {
    exists j :: i <= j < |keys| && HasPropMap(m[keys[j]])
  }

  lemma BadItemsMore(items: seq<Obj>, i: nat)
    requires i < |items|
    ensures BadItems(items, i) <==> HasPropMap(items[i]) || BadItems(items, i + 1)
  {
  }

  lemma BadEntriesMore(m: map<Key, Obj>, keys: seq<Key>, i: nat)
    requires i < |keys| && forall k :: k in keys ==> k in m
    ensures BadEntries(m, keys, i) <==> HasPropMap(m[keys[i]]) || BadEntries(m, keys, i + 1)
  {
  }

  function SeenPairs(o: Obj, keys: seq<Key>): seq<Obj>
    requires o.Map? && forall k :: k in keys ==> k in o.entries
  {
    seq(|keys|, j requires 0 <= j < |keys| => Pair(o.mapKind, keys[j], Seen(o.entries[keys[j]])))
  }

  /** A bracketed body: it leaves the container filled, and closing it delivers the object. */
  lemma Bracketed(r: Reader, tag: Tag, closing: Tag, depth: nat, size: nat, body: seq<Event>, parts: seq<Obj>,
                  bad: bool, state: State, parent: Tag, o: Obj)
    requires Expects(r, depth, parent) && !tag.PairTag?
    requires ReadAll(With(r, Node(tag, depth, size, None, [], [])), body)
          == if bad then None else Some(With(r, Node(tag, depth, size, None, parts, [])))
    requires Finish(Node(tag, depth, size, None, parts, [])) == Some(o)
    ensures ReadAll(r, [Open(tag, depth, size)] + body + [Close(closing, depth, state, parent)])
         == if bad || closing != Closing(r, tag) then None else Deliver(r, o, depth, state)
  {
    var open, close := Open(tag, depth, size), Close(closing, depth, state, parent);
    ReadAppend(r, [open] + body, [close]);
    ReadAppend(r, [open], body);
    ReadOne(r, open);
    if !bad {
      var full := With(r, Node(tag, depth, size, None, parts, []));
      ReadOne(full, close);
      assert full.open[1..] == r.open && r.(open := full.open[1..]) == r;
    }
  }

  lemma {:induction false} Reads(r: Reader, o: Obj, depth: nat, state: State, parent: Tag, ord: Order)
    requires Visits(ord) && Expects(r, depth, parent)
    ensures ReadAll(r, Traverse(o, depth, state, parent, ord)) == Told(r, o, depth, state, HasPropMap(o))
    decreases o, 2
  {
    match o
    case List(kind, items) =>
      if kind == Deque {
        var tag := ListTag(Vector);
        assert [Open(tag, depth, 0)] + [] + [Close(tag, depth, state, parent)]
          == Traverse(o, depth, state, parent, ord);
        Bracketed(r, tag, tag, depth, 0, [], [], false, state, parent, Seen(o));
      } else {
        ReadsList(r, o, depth, state, parent, ord);
      }
    case Map(_, _) => ReadsMap(r, o, depth, state, parent, ord);
    case Pair(kind, k, v) => ReadsPair(r, kind, k, v, depth, state, parent, ord);
    case _ => ReadOne(r, Visit(o, o.Tag(), depth, state));
  }

  function ListNode(o: Obj, depth: nat, parts: seq<Obj>): Node
    requires o.List?
  {
    Node(o.Tag(), depth, |o.items|, None, parts, [])
  }

  lemma {:induction false} ReadsList(r: Reader, o: Obj, depth: nat, state: State, parent: Tag, ord: Order)
    requires Visits(ord) && Expects(r, depth, parent) && o.List? && o.listKind != Deque
    ensures ReadAll(r, [Open(o.Tag(), depth, |o.items|)] + TraverseItems(o, 0, depth + 1, ord)
                       + [Close(o.Tag(), depth, state, parent)])
         == if Fails(r, BadItems(o.items, 0)) then None
           else Deliver(r, List(o.listKind, SeenItems(o.items)), depth, state)
    decreases o, 1, |o.items| + 2
  {
    var parts := SeenItems(o.items);
    assert parts[..0] == [];
    ReadsItems(r, o, depth, 0, ord);
    Bracketed(r, o.Tag(), o.Tag(), depth, |o.items|, TraverseItems(o, 0, depth + 1, ord), parts,
              Fails(r, BadItems(o.items, 0)), state, parent, List(o.listKind, parts));
  }

  lemma {:induction false} ReadsMap(r: Reader, o: Obj, depth: nat, state: State, parent: Tag, ord: Order)
    requires Visits(ord) && Expects(r, depth, parent) && o.Map?
    ensures ReadAll(r, Traverse(o, depth, state, parent, ord)) == Told(r, o, depth, state, HasPropMap(o))
    decreases o, 1, |o.entries| + 3
  {
    var kind, keys := o.mapKind, ord(o.entries);
    ReadsAllEntries(r, o, keys, depth, ord);
    MapFinishes(o, keys, depth);
    MapBracketed(r, o, keys, TraverseEntries(o, keys, 0, depth + 1, ord), depth, state, parent);
  }

  function MapNode(o: Obj, depth: nat, parts: seq<Obj>): Node
    requires o.Map?
  {
    Node(o.Tag(), depth, |o.entries|, None, parts, [])
  }

  lemma MapBracketed(r: Reader, o: Obj, keys: seq<Key>, body: seq<Event>, depth: nat, state: State, parent: Tag)
    requires Expects(r, depth, parent) && o.Map? && Enumerates(keys, o.entries.Keys)
    requires ReadAll(With(r, MapNode(o, depth, [])), body)
          == if Fails(r, BadEntries(o.entries, keys, 0)) then None
            else Some(With(r, MapNode(o, depth, SeenPairs(o, keys))))
    requires Finish(MapNode(o, depth, SeenPairs(o, keys))) == Some(Seen(o))
    ensures var closing := MapTag(if o.mapKind == Prop then Param else o.mapKind);
      ReadAll(r, [Open(o.Tag(), depth, |o.entries|)] + body + [Close(closing, depth, state, parent)])
      == Told(r, o, depth, state, HasPropMap(o))
  {
    BadAsSet(o.entries, keys);
    Bracketed(r, o.Tag(), MapTag(if o.mapKind == Prop then Param else o.mapKind), depth, |o.entries|, body,
              SeenPairs(o, keys), Fails(r, BadEntries(o.entries, keys, 0)), state, parent, Seen(o));
  }

  lemma {:induction false} ReadsAllEntries(r: Reader, o: Obj, keys: seq<Key>, depth: nat, ord: Order)
    requires Visits(ord) && o.Map? && keys == ord(o.entries)
    ensures Enumerates(keys, o.entries.Keys)
    ensures ReadAll(With(r, MapNode(o, depth, [])), TraverseEntries(o, keys, 0, depth + 1, ord))
         == if Fails(r, BadEntries(o.entries, keys, 0)) then None
           else Some(With(r, MapNode(o, depth, SeenPairs(o, keys))))
    decreases o, 1, |o.entries| + 2
  {
    EnumerationSize(keys, o.entries.Keys);
    assert SeenPairs(o, keys)[..0] == [];
    ReadsEntries(r, o, keys, depth, 0, ord);
  }

  lemma BadAsSet(m: map<Key, Obj>, keys: seq<Key>)
    requires Enumerates(keys, m.Keys)
    ensures BadEntries(m, keys, 0) <==> exists k :: k in m && HasPropMap(m[k])
  {
  }

  lemma {:induction false} ReadsPair(r: Reader, kind: PairKind, k: Key, v: Obj, depth: nat, state: State, parent: Tag,
                                     ord: Order)
    requires Visits(ord) && Expects(r, depth, parent)
    ensures ReadAll(r, TraversePair(kind, k, v, depth, state, parent, ord))
         == Told(r, Pair(kind, k, v), depth, state, HasPropMap(v))
    decreases v, 4
  {
    if v.IsIntrinsicContainer() {
      ReadsPairValue(r, kind, k, v, depth, state, ord);
      PairBracketed(r, kind, k, Traverse(v, depth, state, PairTag(kind), ord), Seen(v), Fails(r, HasPropMap(v)),
                    depth, state, parent);
    } else {
      ReadsSimple(r, kind, k, v, depth, state);
    }
  }

  lemma {:induction false} ReadsPairValue(r: Reader, kind: PairKind, k: Key, v: Obj, depth: nat, state: State,
                                          ord: Order)
    requires Visits(ord) && v.IsIntrinsicContainer()
    ensures Seen(v).IsIntrinsicContainer()
    ensures var inner := With(r, Node(PairTag(kind), depth, 1, Some(k), [], []));
      ReadAll(inner, Traverse(v, depth, state, PairTag(kind), ord))
      == if Fails(r, HasPropMap(v)) then None else Deliver(inner, Seen(v), depth, state)
    decreases v, 3
  {
    var inner := With(r, Node(PairTag(kind), depth, 1, Some(k), [], []));
    assert Expects(inner, depth, PairTag(kind));
    Reads(inner, v, depth, state, PairTag(kind), ord);
    SeenContainer(v);
  }

  lemma ReadsSimple(r: Reader, kind: PairKind, k: Key, v: Obj, depth: nat, state: State)
    requires !v.IsIntrinsicContainer()
    ensures ReadAll(r, [Simple(Pair(kind, k, v), depth, state)])
      == Told(r, Pair(kind, k, v), depth, state, HasPropMap(v))
  {
    assert Seen(v) == v && !HasPropMap(v);
    ReadOne(r, Simple(Pair(kind, k, v), depth, state));
  }

  /** A pair around the stream of its value. */
  lemma PairBracketed(r: Reader, kind: PairKind, k: Key, body: seq<Event>, v: Obj, bad: bool, depth: nat, state: State,
                      parent: Tag)
    requires Expects(r, depth, parent) && v.IsIntrinsicContainer()
    requires var inner := With(r, Node(PairTag(kind), depth, 1, Some(k), [], []));
      ReadAll(inner, body) == if bad then None else Deliver(inner, v, depth, state)
    ensures ReadAll(r, [Open(PairTag(kind), depth, 1), PairKey(k, depth)] + body
      + [Close(PairTag(kind), depth, state, parent)])
         == if bad then None else Deliver(r, Pair(kind, k, v), depth, state)
  {
    var head, close := [Open(PairTag(kind), depth, 1), PairKey(k, depth)], Close(PairTag(kind), depth, state, parent);
    ReadAppend(r, head + body, [close]);
    ReadAppend(r, head, body);
    PairHead(r, kind, k, depth, parent);
    if !bad {
      PairClosed(r, kind, k, v, depth, state, parent);
    }
  }

  lemma {:induction false} PairHead(r: Reader, kind: PairKind, k: Key, depth: nat, parent: Tag)
    requires Expects(r, depth, parent)
    ensures ReadAll(r, [Open(PairTag(kind), depth, 1), PairKey(k, depth)])
         == Some(With(r, Node(PairTag(kind), depth, 1, Some(k), [], [])))
  {
    var open, key := Open(PairTag(kind), depth, 1), PairKey(k, depth);
    assert [open, key] == [open] + [key];
    ReadAppend(r, [open], [key]);
    ReadOne(r, open);
    ReadOne(With(r, Node(PairTag(kind), depth, 1, None, [], [])), key);
  }

  lemma SeenContainer(o: Obj)
    ensures Seen(o).IsIntrinsicContainer() == o.IsIntrinsicContainer()
  {
  }

  lemma PairClosed(r: Reader, kind: PairKind, k: Key, v: Obj, depth: nat, state: State, parent: Tag)
    requires Expects(r, depth, parent) && v.IsIntrinsicContainer()
    ensures var n := Node(PairTag(kind), depth, 1, Some(k), [], []);
      var filled := Deliver(With(r, n), v, depth, state);
      && filled.Some?
      && ReadAll(filled.value, [Close(PairTag(kind), depth, state, parent)])
        == Deliver(r, Pair(kind, k, v), depth, state)
  {
  }

  /** One stream and then another. */
  lemma StreamThen(r: Reader, mid: Reader, end: Reader, first: seq<Event>, rest: seq<Event>, bad: bool, badRest: bool)
    requires ReadAll(r, first) == if bad then None else Some(mid)
    requires ReadAll(mid, rest) == if badRest then None else Some(end)
    ensures ReadAll(r, first + rest) == if bad || badRest then None else Some(end)
  {
    ReadAppend(r, first, rest);
  }

  lemma Delivered(r: Reader, n: Node, o: Obj, state: State)
    requires |n.parts| < n.size && !n.tag.PairTag? && state == GetState(|n.parts| + 1, n.size)
    requires n.tag.MapTag? ==> o.Pair? && o.pairKind == n.tag.mapKind
    ensures Deliver(With(r, n), o, n.depth + 1, state) == Some(With(r, n.(parts := n.parts + [o])))
  {
  }

  lemma {:induction false} ReadsItems(r: Reader, o: Obj, depth: nat, i: nat, ord: Order)
    requires Visits(ord) && o.List? && i <= |o.items|
    ensures ReadAll(With(r, ListNode(o, depth, SeenItems(o.items)[..i])), TraverseItems(o, i, depth + 1, ord))
         == if Fails(r, BadItems(o.items, i)) then None else Some(With(r, ListNode(o, depth, SeenItems(o.items))))
    decreases o, 1, |o.items| - i + 1
  {
    var parts := SeenItems(o.items);
    if i == |o.items| {
      assert parts[..i] == parts;
    } else {
      ReadsItem(r, o, depth, i, ord);
      ReadsItems(r, o, depth, i + 1, ord);
      BadItemsMore(o.items, i);
      StreamThen(With(r, ListNode(o, depth, parts[..i])), With(r, ListNode(o, depth, parts[..i + 1])),
                 With(r, ListNode(o, depth, parts)),
                 Traverse(o.items[i], depth + 1, GetState(i + 1, |o.items|), o.Tag(), ord),
                 TraverseItems(o, i + 1, depth + 1, ord), Fails(r, HasPropMap(o.items[i])),
                 Fails(r, BadItems(o.items, i + 1)));
    }
  }

  lemma PrefixSnoc(parts: seq<Obj>, i: nat)
    requires i < |parts|
    ensures parts[..i + 1] == parts[..i] + [parts[i]]
  {
  }

  lemma {:induction false} ReadsItem(r: Reader, o: Obj, depth: nat, i: nat, ord: Order)
    requires Visits(ord) && o.List? && i < |o.items|
    ensures var parts := SeenItems(o.items);
      ReadAll(With(r, ListNode(o, depth, parts[..i])),
              Traverse(o.items[i], depth + 1, GetState(i + 1, |o.items|), o.Tag(), ord))
      == if Fails(r, HasPropMap(o.items[i])) then None else Some(With(r, ListNode(o, depth, parts[..i + 1])))
    decreases o, 1, 0
  {
    var n, state := ListNode(o, depth, SeenItems(o.items)[..i]), GetState(i + 1, |o.items|);
    SeenItemsAt(o.items, i);
    PrefixSnoc(SeenItems(o.items), i);
    Reads(With(r, n), o.items[i], depth + 1, state, o.Tag(), ord);
    Delivered(r, n, SeenItems(o.items)[i], state);
  }

  lemma {:induction false} ReadsEntries(r: Reader, o: Obj, keys: seq<Key>, depth: nat, i: nat, ord: Order)
    requires Visits(ord) && o.Map? && i <= |keys| == |o.entries| && forall k :: k in keys ==> k in o.entries
    ensures ReadAll(With(r, MapNode(o, depth, SeenPairs(o, keys)[..i])), TraverseEntries(o, keys, i, depth + 1, ord))
         == if Fails(r, BadEntries(o.entries, keys, i)) then None
           else Some(With(r, MapNode(o, depth, SeenPairs(o, keys))))
    decreases o, 1, |keys| - i + 1
  {
    var parts := SeenPairs(o, keys);
    if i == |keys| {
      assert parts[..i] == parts;
    } else {
      var k := keys[i];
      ReadsEntry(r, o, keys, depth, i, ord);
      ReadsEntries(r, o, keys, depth, i + 1, ord);
      BadEntriesMore(o.entries, keys, i);
      StreamThen(With(r, MapNode(o, depth, parts[..i])), With(r, MapNode(o, depth, parts[..i + 1])),
                 With(r, MapNode(o, depth, parts)),
                 TraversePair(o.mapKind, k, o.entries[k], depth + 1, GetState(i + 1, |o.entries|), o.Tag(), ord),
                 TraverseEntries(o, keys, i + 1, depth + 1, ord),
                 Fails(r, HasPropMap(o.entries[k])), Fails(r, BadEntries(o.entries, keys, i + 1)));
    }
  }

  lemma {:induction false} ReadsEntry(r: Reader, o: Obj, keys: seq<Key>, depth: nat, i: nat, ord: Order)
    requires Visits(ord) && o.Map? && i < |keys| == |o.entries| && forall k :: k in keys ==> k in o.entries
    ensures var parts, v := SeenPairs(o, keys), o.entries[keys[i]];
      ReadAll(With(r, MapNode(o, depth, parts[..i])),
              TraversePair(o.mapKind, keys[i], v, depth + 1, GetState(i + 1, |o.entries|), o.Tag(), ord))
      == if Fails(r, HasPropMap(v)) then None else Some(With(r, MapNode(o, depth, parts[..i + 1])))
    decreases o, 1, 0
  {
    var n, state := MapNode(o, depth, SeenPairs(o, keys)[..i]), GetState(i + 1, |o.entries|);
    PrefixSnoc(SeenPairs(o, keys), i);
    ReadsPair(With(r, n), o.mapKind, keys[i], o.entries[keys[i]], depth + 1, state, o.Tag(), ord);
    Delivered(r, n, SeenPairs(o, keys)[i], state);
  }

  lemma {:induction false} PairsMakeMap(o: Obj, keys: seq<Key>)
    requires o.Map? && Enumerates(keys, o.entries.Keys)
    ensures EntriesOf(SeenPairs(o, keys)) == Seen(o).entries
  {
    PairsMakePart(o, keys, |keys|);
    var parts := SeenPairs(o, keys);
    assert parts[..|keys|] == parts && keys[..|keys|] == keys;
    assert (map k | k in o.entries && k in keys :: Seen(o.entries[k])) == Seen(o).entries;
  }

  lemma {:induction false} MapFinishes(o: Obj, keys: seq<Key>, depth: nat)
    requires o.Map? && Enumerates(keys, o.entries.Keys)
    ensures Finish(Node(o.Tag(), depth, |o.entries|, None, SeenPairs(o, keys), [])) == Some(Seen(o))
  {
    EnumerationSize(keys, o.entries.Keys);
    PairsMakeMap(o, keys);
  }

  lemma {:induction false} PairsMakePart(o: Obj, keys: seq<Key>, i: nat)
    requires o.Map? && i <= |keys| && forall k :: k in keys ==> k in o.entries
    ensures EntriesOf(SeenPairs(o, keys)[..i]) == map k | k in o.entries && k in keys[..i] :: Seen(o.entries[k])
    decreases i
  {
    if i > 0 {
      var parts := SeenPairs(o, keys);
      PairsMakePart(o, keys, i - 1);
      assert parts[..i][..i - 1] == parts[..i - 1] && parts[..i][i - 1] == parts[i - 1];
      assert keys[..i] == keys[..i - 1] + [keys[i - 1]];
    }
  }

  function Start(lenient: bool, root: Tag): Reader { Reader([], None, lenient, root) }

  /** The stream's promise, with its exact condition. A reader that insists on matching
      types and depths, on the announced sizes and parents, and on the LAST and FIRST marks
      accepts the stream and gets the tree back if and only if the walk reaches no property
      map and the tree holds no deque. */
  lemma StreamRebuilds(o: Obj, ord: Order)
    requires Visits(ord)
    ensures var r, events := Start(false, o.Tag()), Traverse(o, 0, Last, o.Tag(), ord);
      && ReadAll(r, events) == (if HasPropMap(o) then None else Some(r.(done := Some(Seen(o)))))
      && (ReadAll(r, events) == Some(r.(done := Some(o))) <==> !HasPropMap(o) && !HasDeque(o))
  {
    Reads(Start(false, o.Tag()), o, 0, Last, o.Tag(), ord);
    SeenExactly(o);
  }

  /** The type with which property maps are closed is all that is wrong with their stream: a
      reader that takes it, and insists on everything else, gets every tree back but for deques. */
  lemma StreamOtherwiseRight(o: Obj, ord: Order)
    requires Visits(ord)
    ensures var r, events := Start(true, o.Tag()), Traverse(o, 0, Last, o.Tag(), ord);
      && ReadAll(r, events) == Some(r.(done := Some(Seen(o))))
      && (ReadAll(r, events) == Some(r.(done := Some(o))) <==> !HasDeque(o))
  {
    Reads(Start(true, o.Tag()), o, 0, Last, o.Tag(), ord);
    SeenExactly(o);
  }

  /** A deque, whatever it holds, is announced as an empty vector. */
  lemma DequeStream(items: seq<Obj>, depth: nat, state: State, parent: Tag, ord: Order)
    requires Visits(ord)
    ensures Traverse(List(Deque, items), depth, state, parent, ord)
         == [Open(ListTag(Vector), depth, 0), Close(ListTag(Vector), depth, state, parent)]
  {
  }
}
