/** Nested parameter maps: lookup along a path, rename (extract and insert), and merge. */
module ParamTree {
  import opened Dom

  type Entries = map<Key, Obj>
  type Path = seq<Key>

  predicate IsParamMap(o: Obj) { o.Map? && o.mapKind == Param }

  /** The object a path leads to, down nested parameter maps. */
  function At(o: Obj, path: Path): Option<Obj>
    decreases |path|
  {
    if path == [] then Some(o)
    else if IsParamMap(o) && path[0] in o.entries then At(o.entries[path[0]], path[1..])
    else None
  }

  function Root(m: Entries): Obj { Map(Param, m) }

  /** A pointer into nested maps is the path of names that leads to one. */
  predicate Points(m: Entries, ptr: Path) { At(Root(m), ptr).Some? && IsParamMap(At(Root(m), ptr).value) }

  predicate Related(p: Path, q: Path) { p <= q || q <= p }

  // ---- rename -----------------------------------------------------------

  /** Takes the entry at a path out of the map; only parameter maps are entered. */
  function Extract(m: Entries, path: Path): (Entries, Option<Obj>)
    decreases |path|
  {
    if path == [] || path[0] !in m then (m, None)
    else if |path| == 1 then (m - {path[0]}, Some(m[path[0]]))
    else if IsParamMap(m[path[0]]) then
      var (sub, r) := Extract(m[path[0]].entries, path[1..]);
      (m[path[0] := Root(sub)], r)
    else (m, None)
  }

  /** Puts an entry below a path, creating maps on the way; a name in use wins, a non-map blocks. */
  function Insert(m: Entries, path: Path, key: Key, val: Obj): Entries
    decreases |path|
  {
    if path == [] then if key in m then m else m[key := val]
    else if path[0] !in m then m[path[0] := Root(Insert(map[], path[1..], key, val))]
    else if IsParamMap(m[path[0]]) then m[path[0] := Root(Insert(m[path[0]].entries, path[1..], key, val))]
    else m
  }

  function Rename(m: Entries, path: Path, rep: Path): Entries {
    var (m', r) := Extract(m, path);
    if r.None? || rep == [] then m' else Insert(m', rep, path[|path| - 1], r.value)
  }

  lemma {:induction false} ExtractFinds(m: Entries, path: Path)
    requires path != []
    ensures Extract(m, path).1 == At(Root(m), path)
    ensures At(Root(m), path).None? ==> Extract(m, path).0 == m
    decreases |path|
  {
    if path[0] in m && |path| > 1 && IsParamMap(m[path[0]]) {
      ExtractFinds(m[path[0]].entries, path[1..]);
    }
  }

  /** After an extraction nothing is left at or below the path, and everything else is as it was. */
  lemma {:induction false} ExtractLeaves(m: Entries, path: Path, q: Path)
    requires At(Root(m), path).Some? && path != []
    ensures path <= q ==> At(Root(Extract(m, path).0), q).None?
    ensures !Related(path, q) ==> At(Root(Extract(m, path).0), q) == At(Root(m), q)
    ensures q <= path && q != path ==> Points(Extract(m, path).0, q)
    decreases |path|
  {
    var m' := Extract(m, path).0;
    if q != [] {
      if |path| > 1 && q[0] == path[0] {
        RelatedTails(path, q);
        ExtractLeaves(m[path[0]].entries, path[1..], q[1..]);
      } else if q[0] != path[0] {
        assert !Related(path, q);
      }
    }
  }

  lemma RelatedTails(p: Path, q: Path)
    requires p != [] && q != [] && p[0] == q[0]
    ensures p <= q <==> p[1..] <= q[1..]
    ensures q <= p <==> q[1..] <= p[1..]
    ensures p == q <==> p[1..] == q[1..]
  {
  }

  /** Something that is not a parameter map stands in the way of a path. */
  predicate Blocked(m: Entries, path: Path)
    decreases |path|
  {
    path != [] && path[0] in m && (!IsParamMap(m[path[0]]) || Blocked(m[path[0]].entries, path[1..]))
  }

  /** A blocked or occupied target leaves the map as it is. */
  lemma {:induction false} InsertRefused(m: Entries, path: Path, key: Key, val: Obj)
    requires Blocked(m, path) || At(Root(m), path + [key]).Some?
    ensures Insert(m, path, key, val) == m
    decreases |path|
  {
    if path == [] {
      assert (path + [key])[0] == key;
    } else {
      assert (path + [key])[0] == path[0] && (path + [key])[1..] == path[1..] + [key];
      if path[0] in m && IsParamMap(m[path[0]]) {
        InsertRefused(m[path[0]].entries, path[1..], key, val);
      }
    }
  }

  /** The map that an insertion or a merge goes on with below a key: the one there, or a new one. */
  function Child(m: Entries, key: Key): Entries {
    if key in m && IsParamMap(m[key]) then m[key].entries else map[]
  }

  predicate Closed(m: Entries, key: Key) { key in m && !IsParamMap(m[key]) }

  /** What lies below a key is what lies in the map put there. */
  lemma AtDown(m: Entries, key: Key, sub: Entries, q: Path)
    requires q != [] && q[0] == key
    ensures At(Root(m[key := Root(sub)]), q) == At(Root(sub), q[1..])
  {
  }

  lemma AtChild(m: Entries, q: Path)
    requires |q| > 1 && !Closed(m, q[0])
    ensures At(Root(m), q) == At(Root(Child(m, q[0])), q[1..])
  {
  }

  lemma BlockedChild(m: Entries, path: Path)
    requires path != []
    ensures Blocked(m, path) <==> Closed(m, path[0]) || Blocked(Child(m, path[0]), path[1..])
  {
  }

  lemma InsertStep(m: Entries, path: Path, key: Key, val: Obj)
    requires path != [] && !Blocked(m, path)
    ensures !Closed(m, path[0]) && !Blocked(Child(m, path[0]), path[1..])
    ensures Insert(m, path, key, val) == m[path[0] := Root(Insert(Child(m, path[0]), path[1..], key, val))]
  {
  }

  /** A free, unblocked target receives the value; everything not on the way keeps its place. */
  lemma {:induction false} InsertPuts(m: Entries, path: Path, key: Key, val: Obj, q: Path)
    requires !Blocked(m, path) && At(Root(m), path + [key]).None?
    ensures path + [key] <= q ==> At(Root(Insert(m, path, key, val)), q) == At(val, q[|path| + 1..])
    ensures !Related(path + [key], q) ==> At(Root(Insert(m, path, key, val)), q) == At(Root(m), q)
    ensures q <= path ==> Points(Insert(m, path, key, val), q)
    decreases |path|
  {
    if q == [] || q[0] != (path + [key])[0] {
      InsertAside(m, path, key, val, q);
    } else if path == [] {
      assert At(Root(m), [key]).None? && [] + [key] == [key] && [key][1..] == [];
      InsertHere(m, key, val, q);
    } else {
      FreeBelow(m, path, key);
      InsertPuts(Child(m, path[0]), path[1..], key, val, q[1..]);
      InsertLifts(m, path, key, val, q);
    }
  }

  lemma InsertAside(m: Entries, path: Path, key: Key, val: Obj, q: Path)
    requires !Blocked(m, path) && (q == [] || q[0] != (path + [key])[0])
    ensures !(path + [key] <= q) && (q != [] ==> !(q <= path) && !Related(path + [key], q))
    ensures q != [] ==> At(Root(Insert(m, path, key, val)), q) == At(Root(m), q)
    ensures q == [] ==> Points(Insert(m, path, key, val), q) && Related(path + [key], q)
  {
    if path != [] { InsertStep(m, path, key, val); }
  }

  lemma InsertHere(m: Entries, key: Key, val: Obj, q: Path)
    requires key !in m && q != [] && q[0] == key
    ensures [] + [key] <= q && !(q <= [])
    ensures At(Root(Insert(m, [], key, val)), q) == At(val, q[1..])
  {
  }

  lemma FreeBelow(m: Entries, path: Path, key: Key)
    requires path != [] && !Blocked(m, path) && At(Root(m), path + [key]).None?
    ensures !Blocked(Child(m, path[0]), path[1..]) && At(Root(Child(m, path[0])), path[1..] + [key]).None?
  {
    assert (path + [key])[1..] == path[1..] + [key];
    BlockedChild(m, path);
    AtChild(m, path + [key]);
  }

  /** What an insertion does in the map below holds from the map above. */
  lemma InsertLifts(m: Entries, path: Path, key: Key, val: Obj, q: Path)
    requires path != [] && q != [] && q[0] == path[0] && !Blocked(m, path)
    requires var sub, rest, tail := Child(m, path[0]), path[1..], q[1..];
      var now := Insert(sub, rest, key, val);
      && (rest + [key] <= tail ==> At(Root(now), tail) == At(val, tail[|rest| + 1..]))
      && (!Related(rest + [key], tail) ==> At(Root(now), tail) == At(Root(sub), tail))
      && (tail <= rest ==> Points(now, tail))
    ensures path + [key] <= q ==> At(Root(Insert(m, path, key, val)), q) == At(val, q[|path| + 1..])
    ensures !Related(path + [key], q) ==> At(Root(Insert(m, path, key, val)), q) == At(Root(m), q)
    ensures q <= path ==> Points(Insert(m, path, key, val), q)
  {
    var full := path + [key];
    assert full[1..] == path[1..] + [key];
    InsertStep(m, path, key, val);
    AtDown(m, path[0], Insert(Child(m, path[0]), path[1..], key, val), q);
    RelatedTails(full, q);
    RelatedTails(path, q);
    if |q| > 1 { AtChild(m, q); }
    if full <= q { assert q[1..][|path|..] == q[|path| + 1..]; }
  }

  /** rename keeps the node if and only if the replacement path is not empty, nothing on it
      blocks, and the target name is free, all judged with the node taken out; otherwise
      the node is lost and the rest is untouched. An absent path changes nothing. */
  lemma {:induction false} RenameExactly(m: Entries, path: Path, rep: Path)
    ensures path == [] || At(Root(m), path).None? ==> Rename(m, path, rep) == m
    ensures path != [] && At(Root(m), path).Some? ==>
      var m' := Extract(m, path).0;
      var name := path[|path| - 1];
      var kept := rep != [] && !Blocked(m', rep) && At(Root(m'), rep + [name]).None?;
      && (kept ==> At(Root(Rename(m, path, rep)), rep + [name]) == At(Root(m), path))
      && (!kept ==> Rename(m, path, rep) == m')
  {
    if path != [] {
      ExtractFinds(m, path);
      if At(Root(m), path).Some? && rep != [] {
        var (m', r) := Extract(m, path);
        var name := path[|path| - 1];
        if Blocked(m', rep) || At(Root(m'), rep + [name]).Some? {
          InsertRefused(m', rep, name, r.value);
        } else {
          InsertPuts(m', rep, name, r.value, rep + [name]);
        }
      }
    }
  }

  /** Where the value at a path of the old map is found in the new one. */
  function Moved(path: Path, target: Path, q: Path): Path {
    if path <= q then target + q[|path|..] else q
  }

  predicate IsLeaf(o: Option<Obj>) { o.Some? && !IsParamMap(o.value) }

  /** rename moves the whole node to `rep` plus its own name; every path that has nothing to
      do with either place keeps its value; and leaf for leaf nothing is lost or made up. */
  lemma RenameMoves(m: Entries, path: Path, rep: Path, q: Path)
    requires path != [] && At(Root(m), path).Some? && rep != []
    requires var m' := Extract(m, path).0; !Blocked(m', rep) && At(Root(m'), rep + [path[|path| - 1]]).None?
    ensures var target := rep + [path[|path| - 1]]; var now := Root(Rename(m, path, rep));
      && At(now, target + q) == At(Root(m), path + q)
      && (!Related(path, q) && !Related(target, q) ==> At(now, q) == At(Root(m), q))
      && (IsLeaf(At(Root(m), q)) ==> At(now, Moved(path, target, q)) == At(Root(m), q))
      && (IsLeaf(At(now, q)) ==> target <= q || (!(path <= q) && At(Root(m), q) == At(now, q)))
  {
    var (m', r) := Extract(m, path);
    var name := path[|path| - 1];
    var target := rep + [name];
    ExtractFinds(m, path);
    AtAppend(Root(m), path, q);
    InsertPuts(m', rep, name, r.value, target + q);
    assert (target + q)[|rep| + 1..] == q;
    InsertPuts(m', rep, name, r.value, q);
    ExtractLeaves(m, path, q);
    if IsLeaf(At(Root(m), q)) && !(path <= q) {
      LeafNotAbove(m, path, q);
      TargetFree(m', target, q);
    }
    if path <= q {
      var rest := q[|path|..];
      assert q == path + rest;
      AtAppend(Root(m), path, rest);
      InsertPuts(m', rep, name, r.value, target + rest);
      assert (target + rest)[|rep| + 1..] == rest;
    }
    PrefixCases(target, rep, name, q);
  }

  lemma PrefixCases(target: Path, rep: Path, name: Key, q: Path)
    requires target == rep + [name]
    ensures q <= target <==> q <= rep || q == target
  {
  }

  lemma {:induction false} AtAppend(o: Obj, p: Path, q: Path)
    ensures At(o, p + q) == match At(o, p) case None => None case Some(x) => At(x, q)
    decreases |p|
  {
    if p == [] {
      assert p + q == q;
    } else {
      assert (p + q)[0] == p[0] && (p + q)[1..] == p[1..] + q;
      if IsParamMap(o) && p[0] in o.entries {
        AtAppend(o.entries[p[0]], p[1..], q);
      }
    }
  }

  /** What a present path goes through are parameter maps. */
  lemma {:induction false} LeafNotAbove(m: Entries, path: Path, q: Path)
    requires At(Root(m), path).Some? && IsLeaf(At(Root(m), q)) && !(path <= q)
    ensures !Related(path, q)
  {
    if q <= path {
      assert path == q + path[|q|..];
      AtAppend(Root(m), q, path[|q|..]);
    }
  }

  /** Nothing lives at or below a free target, and what it goes through are maps. */
  lemma {:induction false} TargetFree(m: Entries, target: Path, q: Path)
    requires target != [] && At(Root(m), target).None? && !Blocked(m, target[..|target| - 1]) && IsLeaf(At(Root(m), q))
    ensures !Related(target, q)
  {
    if target <= q {
      assert q == target + q[|target|..];
      AtAppend(Root(m), target, q[|target|..]);
    } else if q <= target {
      LeafBlocks(m, target[..|target| - 1], q);
    }
  }

  lemma {:induction false} LeafBlocks(m: Entries, path: Path, q: Path)
    requires q <= path && IsLeaf(At(Root(m), q))
    ensures Blocked(m, path)
    decreases |path|
  {
    assert q != [] && q[0] == path[0] && q[0] in m;
    if |q| > 1 {
      var sub := m[q[0]];
      assert At(sub, q[1..]) == At(Root(m), q);
      assert IsParamMap(sub) && Root(sub.entries) == sub;
      LeafBlocks(sub.entries, path[1..], q[1..]);
    } else {
      assert q[1..] == [] && At(m[q[0]], []) == At(Root(m), q);
    }
  }

  // ---- merge ------------------------------------------------------------

  /** Sets the value at a path, creating maps on the way; a non-map on the way stops everything. */
  function Merge(m: Entries, path: Path, val: Obj): Entries
    decreases |path|
  {
    if path == [] then m
    else if |path| == 1 then m[path[0] := val]
    else if path[0] !in m then m[path[0] := Root(Merge(map[], path[1..], val))]
    else if IsParamMap(m[path[0]]) then m[path[0] := Root(Merge(m[path[0]].entries, path[1..], val))]
    else m
  }

  /** A non-map on the way leaves the whole map exactly as it was. */
  lemma {:induction false} MergeBlocked(m: Entries, path: Path, val: Obj)
    requires path != [] && Blocked(m, path[..|path| - 1])
    ensures Merge(m, path, val) == m && At(Root(m), path).None?
    decreases |path|
  {
    if |path| > 1 {
      assert path[..|path| - 1][1..] == path[1..][..|path| - 2];
      if path[0] in m && IsParamMap(m[path[0]]) {
        MergeBlocked(m[path[0]].entries, path[1..], val);
      }
    }
  }

  /** Otherwise the path leads to the value afterwards, and paths that have nothing to do
      with it lead where they led. */
  lemma {:induction false} MergePuts(m: Entries, path: Path, val: Obj, q: Path)
    requires path != [] && !Blocked(m, path[..|path| - 1])
    ensures path <= q ==> At(Root(Merge(m, path, val)), q) == At(val, q[|path|..])
    ensures !Related(path, q) ==> At(Root(Merge(m, path, val)), q) == At(Root(m), q)
    decreases |path|
  {
    if q == [] {
    } else if q[0] != path[0] {
      assert !Related(path, q);
    } else if |path| == 1 {
      assert path <= q;
    } else {
      var sub, way := Child(m, path[0]), path[..|path| - 1];
      assert way[1..] == path[1..][..|path| - 2];
      BlockedChild(m, way);
      MergeStep(m, path, val);
      MergePuts(sub, path[1..], val, q[1..]);
      AtDown(m, path[0], Merge(sub, path[1..], val), q);
      RelatedTails(path, q);
      if |q| > 1 { AtChild(m, q); }
      if path <= q { assert q[1..][|path| - 1..] == q[|path|..]; }
    }
  }

  /** merge took effect if and only if there is a path and no non-map stands on its way. */
  lemma {:induction false} MergeExactly(m: Entries, path: Path, val: Obj)
    ensures path != [] ==>
      (At(Root(Merge(m, path, val)), path) == Some(val) <==> !Blocked(m, path[..|path| - 1]))
    ensures path == [] || Blocked(m, path[..|path| - 1]) ==> Merge(m, path, val) == m
  {
    if path != [] {
      if Blocked(m, path[..|path| - 1]) {
        MergeBlocked(m, path, val);
      } else {
        MergePuts(m, path, val, path);
        assert path[|path|..] == [];
      }
    }
  }

  lemma {:induction false} MergeStep(m: Entries, path: Path, val: Obj)
    requires |path| > 1
    ensures Merge(m, path, val) ==
      if Closed(m, path[0]) then m else m[path[0] := Root(Merge(Child(m, path[0]), path[1..], val))]
  {
  }

  /** A later merge at the same path wins. */
  lemma {:induction false} MergeWins(m: Entries, path: Path, val: Obj, later: Obj)
    ensures Merge(Merge(m, path, val), path, later) == Merge(m, path, later)
    decreases |path|
  {
    if |path| > 1 {
      var m' := Merge(m, path, val);
      MergeStep(m, path, val);
      MergeStep(m, path, later);
      MergeStep(m', path, later);
      if !Closed(m, path[0]) {
        var sub := Merge(Child(m, path[0]), path[1..], val);
        assert Child(m', path[0]) == sub;
        MergeWins(Child(m, path[0]), path[1..], val, later);
      }
    }
  }

  /** Merges at unrelated paths can be swapped. */
  lemma {:induction false} MergesSwap(m: Entries, p: Path, a: Obj, q: Path, b: Obj)
    requires !Related(p, q)
    ensures Merge(Merge(m, p, a), q, b) == Merge(Merge(m, q, b), p, a)
    decreases |p|
  {
    if p[0] == q[0] {
      RelatedTails(p, q);
      MergeStep(m, p, a);
      MergeStep(m, q, b);
      if !Closed(m, p[0]) {
        MergesSwap(Child(m, p[0]), p[1..], a, q[1..], b);
        MergeBoth(m, p, a, q, b);
        MergeBoth(m, q, b, p, a);
      }
    } else {
      MergesApart(m, p, a, q, b);
    }
  }

  lemma {:induction false} MergesApart(m: Entries, p: Path, a: Obj, q: Path, b: Obj)
    requires p != [] && q != [] && p[0] != q[0]
    ensures Merge(Merge(m, p, a), q, b) == Merge(Merge(m, q, b), p, a)
  {
    var x, y := Merge(m, p, a), Merge(m, q, b);
    MergeElsewhere(m, p, a, q[0]);
    MergeElsewhere(m, q, b, p[0]);
    MergeLocal(m, m, p, a);
    MergeLocal(m, m, q, b);
    MergeLocal(x, m, q, b);
    MergeLocal(y, m, p, a);
    assert m[p[0] := x[p[0]]][q[0] := y[q[0]]] == m[q[0] := y[q[0]]][p[0] := x[p[0]]];
  }

  lemma {:induction false} MergeBoth(m: Entries, p: Path, a: Obj, q: Path, b: Obj)
    requires |p| > 1 && |q| > 1 && p[0] == q[0] && !Closed(m, p[0])
    ensures Merge(Merge(m, p, a), q, b) == m[p[0] := Root(Merge(Merge(Child(m, p[0]), p[1..], a), q[1..], b))]
  {
  }

  /** A merge touches the entry under the first name of its path only. */
  lemma {:induction false} MergeElsewhere(m: Entries, path: Path, val: Obj, key: Key)
    requires path != [] && path[0] != key
    ensures key in Merge(m, path, val) <==> key in m
    ensures key in m ==> Merge(m, path, val)[key] == m[key]
  {
  }

  /** And what it does there depends on that entry only. */
  lemma {:induction false} MergeLocal(m: Entries, n: Entries, path: Path, val: Obj)
    requires path != [] && (path[0] in m <==> path[0] in n) && (path[0] in m ==> m[path[0]] == n[path[0]])
    ensures path[0] in Merge(n, path, val) && Merge(m, path, val) == m[path[0] := Merge(n, path, val)[path[0]]]
  {
  }

  // ---- the map as it changes in place -----------------------------------

  function Pointee(m: Entries, ptr: Path): Entries
    requires Points(m, ptr)
  {
    At(Root(m), ptr).value.entries
  }

  /** Assigns through the pointer: *ptr = sub. */
  function Put(m: Entries, ptr: Path, sub: Entries): Entries
    requires Points(m, ptr)
    decreases |ptr|
  {
    if ptr == [] then sub
    else
      PointsDown(m, ptr);
      m[ptr[0] := Root(Put(m[ptr[0]].entries, ptr[1..], sub))]
  }

  lemma PointsDown(m: Entries, ptr: Path)
    requires Points(m, ptr) && ptr != []
    ensures ptr[0] in m && IsParamMap(m[ptr[0]])
    ensures Points(m[ptr[0]].entries, ptr[1..]) && Pointee(m[ptr[0]].entries, ptr[1..]) == Pointee(m, ptr)
  {
    var next := m[ptr[0]];
    assert At(Root(m), ptr) == At(next, ptr[1..]);
    assert IsParamMap(next) && Root(next.entries) == next;
  }

  /** The pointer finds what was assigned through it; assigning what is there changes nothing;
      and the last assignment counts. */
  lemma {:induction false} PutLaw(m: Entries, ptr: Path, sub: Entries, later: Entries)
    requires Points(m, ptr)
    ensures Points(Put(m, ptr, sub), ptr) && Pointee(Put(m, ptr, sub), ptr) == sub
    ensures Put(m, ptr, Pointee(m, ptr)) == m
    ensures Put(Put(m, ptr, sub), ptr, later) == Put(m, ptr, later)
    decreases |ptr|
  {
    if ptr != [] {
      PointsDown(m, ptr);
      var inner := m[ptr[0]].entries;
      PutLaw(inner, ptr[1..], sub, later);
      assert m[ptr[0] := Root(inner)] == m;
      var m' := Put(m, ptr, sub);
      assert m'[ptr[0]].entries == Put(inner, ptr[1..], sub);
      assert At(Root(m'), ptr) == At(Root(Put(inner, ptr[1..], sub)), ptr[1..]);
    }
  }

  /** Moving the pointer one map further down. */
  lemma {:induction false} StepDown(m: Entries, ptr: Path, key: Key, sub: Entries)
    requires Points(m, ptr) && key in Pointee(m, ptr) && IsParamMap(Pointee(m, ptr)[key])
    ensures Points(m, ptr + [key]) && Pointee(m, ptr + [key]) == Pointee(m, ptr)[key].entries
    ensures Put(m, ptr + [key], sub) == Put(m, ptr, Pointee(m, ptr)[key := Root(sub)])
    decreases |ptr|
  {
    AtAppend(Root(m), ptr, [key]);
    assert At(At(Root(m), ptr).value, [key]) == At(Pointee(m, ptr)[key], []);
    if ptr == [] {
      assert ptr + [key] == [key] && [key][1..] == [];
    } else {
      PointsDown(m, ptr);
      StepDown(m[ptr[0]].entries, ptr[1..], key, sub);
      assert (ptr + [key])[0] == ptr[0] && (ptr + [key])[1..] == ptr[1..] + [key];
    }
  }

  /** The same, into a map that was created just before. */
  lemma StepNew(m: Entries, ptr: Path, key: Key, sub: Entries)
    requires Points(m, ptr)
    ensures var m' := Put(m, ptr, Pointee(m, ptr)[key := Root(map[])]);
      && Points(m', ptr + [key]) && Pointee(m', ptr + [key]) == map[]
      && Put(m', ptr + [key], sub) == Put(m, ptr, Pointee(m, ptr)[key := Root(sub)])
  {
    var here := Pointee(m, ptr);
    var created := here[key := Root(map[])];
    PutLaw(m, ptr, created, here[key := Root(sub)]);
    StepDown(Put(m, ptr, created), ptr, key, sub);
    assert created[key := Root(sub)] == here[key := Root(sub)];
  }

  /** A merge along a path is the merge of its rest into the map that its beginning leads to. */
  lemma {:induction false} MergeThrough(m: Entries, ptr: Path, rest: Path, val: Obj)
    requires Points(m, ptr) && rest != []
    ensures Merge(m, ptr + rest, val) == Put(m, ptr, Merge(Pointee(m, ptr), rest, val))
    decreases |ptr|
  {
    if ptr == [] {
      assert ptr + rest == rest;
    } else {
      PointsDown(m, ptr);
      assert (ptr + rest)[0] == ptr[0] && (ptr + rest)[1..] == ptr[1..] + rest;
      MergeThrough(m[ptr[0]].entries, ptr[1..], rest, val);
    }
  }

  class ParamMap {
    var entries: Entries

    constructor (entries: Entries)
      ensures this.entries == entries
    {
      this.entries := entries;
    }

    /** Extracts the node and inserts it again below the replacement path. */
    method RenamePath(path: Path, rep: Path)
      modifies this
      ensures entries == Rename(old(entries), path, rep)
    {
      ExtractNone(entries, path);
      var found := ExtractFrom([], path);
      if found.Some? && rep != [] {
        InsertFrom([], rep, path[|path| - 1], found.value);
      }
    }

    /** Looks the first name up in the map pointed to; erases its entry at the end of the
        path, else goes on in the map found there. */
    method ExtractFrom(ptr: Path, rest: Path) returns (found: Option<Obj>)
      requires Points(entries, ptr)
      modifies this
      ensures var (sub, r) := Extract(Pointee(old(entries), ptr), rest);
        entries == Put(old(entries), ptr, sub) && found == r
      decreases |rest|
    {
      var here := Pointee(entries, ptr);
      PutLaw(entries, ptr, here, here);
      if rest == [] { return None; }
      var key := rest[0];
      if key !in here { return None; }
      if |rest| == 1 {
        found := Some(here[key]);
        entries := Put(entries, ptr, here - {key});
      } else if IsParamMap(here[key]) {
        StepDown(entries, ptr, key, Extract(here[key].entries, rest[1..]).0);
        found := ExtractFrom(ptr + [key], rest[1..]);
      } else {
        found := None;
      }
    }

    /** Inserts at the end of the path, unless the name is taken; on the way it goes on in the
        map found, or in a new one, and gives up at anything else. */
    method InsertFrom(ptr: Path, rest: Path, key: Key, val: Obj)
      requires Points(entries, ptr)
      modifies this
      ensures entries == Put(old(entries), ptr, Insert(Pointee(old(entries), ptr), rest, key, val))
      decreases |rest|
    {
      var here := Pointee(entries, ptr);
      PutLaw(entries, ptr, here, here);
      if rest == [] {
        if key !in here {
          entries := Put(entries, ptr, here[key := val]);
        }
      } else {
        var name := rest[0];
        if name in here {
          if IsParamMap(here[name]) {
            StepDown(entries, ptr, name, Insert(here[name].entries, rest[1..], key, val));
            InsertFrom(ptr + [name], rest[1..], key, val);
          }
        } else {
          StepNew(entries, ptr, name, Insert(map[], rest[1..], key, val));
          entries := Put(entries, ptr, here[name := Root(map[])]);
          InsertFrom(ptr + [name], rest[1..], key, val);
        }
      }
    }

    /** Walks a pointer down the nested maps and writes where the path ends; asserts exactly when
        something that is not a parameter map stands in the way. */
    method MergePath(path: Path, val: Obj) returns (asserts: bool)
      modifies this
      ensures entries == Merge(old(entries), path, val)
      ensures asserts <==> path != [] && Blocked(old(entries), path[..|path| - 1])
    {
      if path == [] { return false; }
      var pos := 0;
      var ptr: Path := [];
      MergeStarts(entries, path, val);
      while true
        invariant pos < |path| && MergeGoesOn(old(entries), entries, ptr, path, pos, val)
        decreases |path| - pos
      {
        var here, key := Pointee(entries, ptr), path[pos];
        if pos + 1 == |path| {
          MergeEnds(old(entries), entries, ptr, path, pos, val);
          entries := Put(entries, ptr, here[key := val]);
          return false;
        }
        if key in here {
          MergeFinds(old(entries), entries, ptr, path, pos, val);
          if !IsParamMap(here[key]) { return true; }
        } else {
          MergeCreates(old(entries), entries, ptr, path, pos, val);
          entries := Put(entries, ptr, here[key := Root(map[])]);
        }
        ptr, pos := ptr + [key], pos + 1;
      }
    }
  }

  /** The pointer has come down the first names; what is left is to merge the others where it points. */
  ghost predicate MergeGoesOn(m: Entries, now: Entries, ptr: Path, path: Path, pos: nat, val: Obj)
    requires pos < |path|
  {
    && Points(now, ptr)
    && Merge(m, path, val) == Put(now, ptr, Merge(Pointee(now, ptr), path[pos..], val))
    && (Blocked(m, path[..|path| - 1]) <==> Blocked(Pointee(now, ptr), path[pos..|path| - 1]))
  }

  lemma MergeStarts(m: Entries, path: Path, val: Obj)
    requires path != []
    ensures MergeGoesOn(m, m, [], path, 0, val)
  {
    assert path[0..] == path && path[0..|path| - 1] == path[..|path| - 1];
  }

  /** The last name: the value is assigned there. */
  lemma MergeEnds(m: Entries, now: Entries, ptr: Path, path: Path, pos: nat, val: Obj)
    requires pos + 1 == |path| && MergeGoesOn(m, now, ptr, path, pos, val)
    ensures Merge(m, path, val) == Put(now, ptr, Pointee(now, ptr)[path[pos] := val])
    ensures !Blocked(m, path[..|path| - 1])
  {
    assert path[pos..] == [path[pos]] && path[pos..|path| - 1] == [];
  }

  /** The first name that is left, and the way after it. */
  lemma PathStep(path: Path, pos: nat)
    requires pos + 1 < |path|
    ensures path[pos..] == [path[pos]] + path[pos + 1..] && path[pos..][1..] == path[pos + 1..]
    ensures var way := path[pos..|path| - 1];
      way != [] && way[0] == path[pos] && way[1..] == path[pos + 1..|path| - 1]
  {
  }

  /** An entry on the way: the pointer moves into it, or everything stops. */
  lemma MergeFinds(m: Entries, now: Entries, ptr: Path, path: Path, pos: nat, val: Obj)
    requires pos + 1 < |path| && MergeGoesOn(m, now, ptr, path, pos, val) && path[pos] in Pointee(now, ptr)
    ensures if IsParamMap(Pointee(now, ptr)[path[pos]]) then MergeGoesOn(m, now, ptr + [path[pos]], path, pos + 1, val)
      else Merge(m, path, val) == now && Blocked(m, path[..|path| - 1])
  {
    var here, key := Pointee(now, ptr), path[pos];
    PathStep(path, pos);
    MergeStep(here, path[pos..], val);
    BlockedChild(here, path[pos..|path| - 1]);
    if IsParamMap(here[key]) {
      StepDown(now, ptr, key, Merge(here[key].entries, path[pos + 1..], val));
    } else {
      PutLaw(now, ptr, here, here);
    }
  }

  /** No entry on the way: a map is created and the pointer moves into it. */
  lemma MergeCreates(m: Entries, now: Entries, ptr: Path, path: Path, pos: nat, val: Obj)
    requires pos + 1 < |path| && MergeGoesOn(m, now, ptr, path, pos, val) && path[pos] !in Pointee(now, ptr)
    ensures var created := Put(now, ptr, Pointee(now, ptr)[path[pos] := Root(map[])]);
      MergeGoesOn(m, created, ptr + [path[pos]], path, pos + 1, val)
  {
    var here, key := Pointee(now, ptr), path[pos];
    PathStep(path, pos);
    MergeStep(here, path[pos..], val);
    BlockedChild(here, path[pos..|path| - 1]);
    StepNew(now, ptr, key, Merge(map[], path[pos + 1..], val));
  }

  lemma {:induction false} ExtractNone(m: Entries, path: Path)
    ensures Extract(m, path).1.Some? ==> path != []
    ensures Extract(m, path).1.None? ==> Extract(m, path).0 == m
    decreases |path|
  {
    if path != [] {
      ExtractFinds(m, path);
    }
  }
}
