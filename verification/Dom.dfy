module OpCodes {

  /** The VM's op codes. `Unimplemented` stands for every code the VM has no case for. */
  datatype Op =
    | Noop | Tidy | Now | Pid | Tid | Ident | Halt
    | Invoke | InvokeR | Forward | Resolve
    | MakeAttr | MakeParam | MakeProp | MakeAttrMap | MakeParamMap | MakePropMap
    | MakeTuple | MakeVector | MakeDeque | MakePrg | Split
    | AssertType | AssertValue
    | Esba | Reba | Pull | Frm
    | Unimplemented(code: nat)
}

/** The dynamically typed objects of the library: leaves, the three list
    containers, the three sorted maps and their three pair types. */
module Dom {
  import OpCodes

  datatype Option<+T> = None | Some(value: T)

  datatype ListKind = Tuple | Vector | Deque

  /** Attributes are keyed by an index, parameters by a name, properties by an OBIS code. */
  datatype PairKind = Attr | Param | Prop

  datatype Key = Index(i: nat) | Name(s: string) | Code(obis: nat)

  datatype Tag =
    | NullTag | SizeTag | StringTag | ObisTag | UuidTag | BufferTag | TypeCodeTag | OpTag | PrgTag
    | PlainTag(tag: nat)
    | ListTag(listKind: ListKind) | MapTag(mapKind: PairKind) | PairTag(pairKind: PairKind)

  datatype Obj =
    | Null
    | Size(n: nat)
    | Str(s: string)
    | Obis(code: nat)
    | Uuid(uuid: nat)
    | Buffer(bytes: seq<nat>)
    | TypeCode(typeCode: Tag)
    | Instr(op: OpCodes.Op)
    | Prg(buffers: seq<seq<nat>>)
    | Plain(plainTag: nat, value: int)
    | List(listKind: ListKind, items: seq<Obj>)
    | Map(mapKind: PairKind, entries: map<Key, Obj>)
    | Pair(pairKind: PairKind, key: Key, val: Obj)
  {
    function Tag(): Tag {
      match this
      case Null => NullTag
      case Size(_) => SizeTag
      case Str(_) => StringTag
      case Obis(_) => ObisTag
      case Uuid(_) => UuidTag
      case Buffer(_) => BufferTag
      case TypeCode(_) => TypeCodeTag
      case Instr(_) => OpTag
      case Prg(_) => PrgTag
      case Plain(t, _) => PlainTag(t)
      case List(k, _) => ListTag(k)
      case Map(k, _) => MapTag(k)
      case Pair(k, _, _) => PairTag(k)
    }

    predicate IsContainer() { List? || Map? || Pair? }

    /** What the type system counts as a container: a program of buffers is one too. */
    predicate IsIntrinsicContainer() { IsContainer() || Prg? }
  }

  /** The key type that goes with a pair or map kind. */
  predicate KeyFits(kind: PairKind, key: Key) {
    match kind
    case Attr => key.Index?
    case Param => key.Name?
    case Prop => key.Code?
  }

  /** A sequence that visits each key of a set exactly once, as one pass over a container does. */
  ghost predicate Enumerates<K>(order: seq<K>, keys: set<K>) {
    && (forall i :: 0 <= i < |order| ==> order[i] in keys)
    && (forall k :: k in keys ==> k in order)
    && (forall i, j :: 0 <= i < j < |order| ==> order[i] != order[j])
  }

  /** The order in which containers hand out the entries of a map, whatever it is. */
  type Order = map<Key, Obj> -> seq<Key>

  ghost predicate Visits(ord: Order) { forall m :: Enumerates(ord(m), m.Keys) }

  lemma {:induction false} EnumerationSize<K>(order: seq<K>, keys: set<K>)
    requires Enumerates(order, keys)
    ensures |order| == |keys|
    decreases |order|
  {
    if order != [] {
      var n := |order| - 1;
      assert order[n] in keys;
      forall k | k in keys - {order[n]} ensures k in order[..n] {
        var i :| 0 <= i < |order| && order[i] == k;
        assert order[..n][i] == k;
      }
      EnumerationSize(order[..n], keys - {order[n]});
    }
  }

  function Reverse<T>(xs: seq<T>): (r: seq<T>)
    ensures |r| == |xs|
  {
    if xs == [] then [] else Reverse(xs[1..]) + [xs[0]]
  }

  lemma {:induction false} ReverseTwice<T>(xs: seq<T>)
    ensures Reverse(Reverse(xs)) == xs
    decreases |xs|
  {
    if xs != [] {
      ReverseTwice(xs[1..]);
      ReverseSnoc(Reverse(xs[1..]), xs[0]);
    }
  }

  lemma {:induction false} ReverseSnoc<T>(xs: seq<T>, x: T)
    ensures Reverse(xs + [x]) == [x] + Reverse(xs)
    decreases |xs|
  {
    if xs == [] {
      assert xs + [x] == [x];
    } else {
      assert (xs + [x])[1..] == xs[1..] + [x];
      ReverseSnoc(xs[1..], x);
    }
  }

  lemma {:induction false} ReverseAt<T>(xs: seq<T>, i: nat)
    requires i < |xs|
    ensures Reverse(xs)[i] == xs[|xs| - 1 - i]
    decreases |xs|
  {
    if i < |xs| - 1 {
      ReverseAt(xs[1..], i);
    }
  }

  lemma {:induction false} ReverseMultiset<T>(s: seq<T>)
    ensures multiset(Reverse(s)) == multiset(s)
    decreases |s|
  {
    if s != [] {
      assert s == [s[0]] + s[1..];
      ReverseMultiset(s[1..]);
    }
  }
}
