/** The stack machine's instructions as functions on its state. */
module VmModel {
  import opened Dom
  import opened OpCodes
  import opened Schema

  /** An external function: a void one pushes nothing, the others push their result. */
  datatype Fn = Void | Returns(fn: seq<Obj> -> Obj)

  /** A message the VM sends off: to its own channel, or to the channel with another tag. */
  datatype Sent = ToSelf(slot: string, args: seq<Obj>) | ToOther(tag: nat, slot: string, args: seq<Obj>)

  /** What the VM cannot compute itself: its tag, slot names, external functions, clock and ids, object hashes. */
  datatype Env = Env(tag: nat, names: map<string, nat>, fns: seq<Fn>, now: Obj, pid: Obj, tid: Obj, hash: Obj -> int)

  /** External functions follow the five internal slots. */
  const OFFSET: nat := 5

  datatype Vm = Vm(s: seq<Obj>, bp: nat, sent: seq<Sent>)

  function Push(st: Vm, o: Obj): Vm { st.(s := st.s + [o]) }

  predicate IsPair(o: Obj, kind: PairKind) { o.Pair? && o.pairKind == kind }

  /** The map built from stack slots, bottom first: the slot popped first, the topmost, wins a key. */
  function Gather(kind: PairKind, slots: seq<Obj>): Option<map<Key, Obj>> {
    if slots == [] then Some(map[])
    else
      var m := Gather(kind, slots[1..]);
      if m.None? || !IsPair(slots[0], kind) then None
      else if slots[0].key in m.value then m
      else Some(m.value[slots[0].key := slots[0].val])
  }

  /** The byte buffers in stack slots, topmost first. */
  function GatherBuffers(slots: seq<Obj>): Option<seq<seq<nat>>> {
    if slots == [] then Some([])
    else
      var rest := GatherBuffers(slots[1..]);
      if rest.None? || !slots[0].Buffer? then None else Some(rest.value + [slots[0].bytes])
  }

  /** The count on top says how many slots below it belong to a container. */
  predicate HasCounted(s: seq<Obj>) {
    s != [] && s[|s| - 1].Size? && s[|s| - 1].n < |s|
  }

  function Counted(s: seq<Obj>): seq<Obj> requires HasCounted(s) { s[|s| - 1 - s[|s| - 1].n..|s| - 1] }
  function Below(s: seq<Obj>): seq<Obj> requires HasCounted(s) { s[..|s| - 1 - s[|s| - 1].n] }

  /** The base pointer saved in the slot at bp; a slot that is not a size reads as zero. */
  function SavedBp(s: seq<Obj>, bp: nat): nat
    requires bp < |s|
  {
    if s[bp].Size? then s[bp].n else 0
  }

  function MakeList(kind: ListKind, st: Vm): Option<Vm> {
    if !HasCounted(st.s) then None else Some(st.(s := Below(st.s) + [List(kind, Reverse(Counted(st.s)))]))
  }

  function MakeMap(kind: PairKind, st: Vm): Option<Vm> {
    if !HasCounted(st.s) || (kind == Attr && |st.s| <= 1) then None
    else
      var m := Gather(kind, Counted(st.s));
      if m.None? then None else Some(st.(s := Below(st.s) + [Map(kind, m.value)]))
  }

  function MakePair(kind: PairKind, st: Vm): Option<Vm> {
    var n := |st.s|;
    if n <= 1 then None
    else
      var key := match (kind, st.s[n - 1])
        case (Attr, Size(i)) => Some(Index(i))
        case (Param, Str(s)) => Some(Name(s))
        case (Prop, Obis(c)) => Some(Code(c))
        case _ => None;
      if key.None? then None else Some(st.(s := st.s[..n - 2] + [Pair(kind, key.value, st.s[n - 2])]))
  }

  /** Takes a name, a count and that many arguments off the stack; the arguments come out in push order. */
  function TakeCall(s: seq<Obj>): Option<(string, seq<Obj>, seq<Obj>)> {
    var n := |s|;
    if n <= 1 || !s[n - 1].Str? || !HasCounted(s[..n - 1]) then None
    else Some((s[n - 1].s, Counted(s[..n - 1]), Below(s[..n - 1])))
  }

  /** One instruction; None where the code asserts or leaves its own rules. */
  function Exec(env: Env, st: Vm, obj: Obj): Option<Vm> {
    if obj.Instr? then ExecOp(env, st, obj.op) else Some(Push(st, obj))
  }

  function ExecOp(env: Env, st: Vm, op: Op): Option<Vm> {
    var n := |st.s|;
    match op
    case Noop => Some(st)
    case Tidy => Some(st)
    case Halt => Some(st)
    case Now => Some(Push(st, env.now))
    case Pid => Some(Push(st, env.pid))
    case Tid => Some(Push(st, env.tid))
    case Ident => Some(Push(st, Uuid(env.tag)))
    case Resolve =>
      if n == 0 || !st.s[n - 1].Str? then None
      else
        var name := st.s[n - 1].s;
        Some(st.(s := st.s[..n - 1] + [Size(if name in env.names then env.names[name] else NPOS)]))
    case Invoke =>
      var c := TakeCall(st.s);
      if c.None? then None
      else Some(st.(s := c.value.2, sent := st.sent + [ToSelf(c.value.0, c.value.1)]))
    case Forward =>
      if n == 0 || !st.s[n - 1].Uuid? || st.s[n - 1].uuid == 0 then None
      else
        var tag := st.s[n - 1].uuid;
        var c := TakeCall(st.s[..n - 1]);
        if c.None? then None
        else
          var msg := if tag == env.tag then ToSelf(c.value.0, c.value.1) else ToOther(tag, c.value.0, c.value.1);
          Some(st.(s := c.value.2, sent := st.sent + [msg]))
    case InvokeR =>
      if n <= 1 || !st.s[n - 1].Size? || st.s[n - 1].n == NPOS || !HasCounted(st.s[..n - 1]) then None
      else
        var id, args, rest := st.s[n - 1].n, Counted(st.s[..n - 1]), Below(st.s[..n - 1]);
        if !(OFFSET <= id < OFFSET + |env.fns|) then None
        else if env.fns[id - OFFSET].Void? then Some(st.(s := rest))
        else Some(st.(s := rest + [env.fns[id - OFFSET].fn(args)]))
    case MakeAttr => MakePair(Attr, st)
    case MakeParam => MakePair(Param, st)
    case MakeProp => MakePair(Prop, st)
    case MakeAttrMap => MakeMap(Attr, st)
    case MakeParamMap => MakeMap(Param, st)
    case MakePropMap => MakeMap(Prop, st)
    case MakeTuple => MakeList(Tuple, st)
    case MakeVector => MakeList(Vector, st)
    case MakeDeque => MakeList(Deque, st)
    case MakePrg =>
      if !HasCounted(st.s) then None
      else
        var bs := GatherBuffers(Counted(st.s));
        if bs.None? then None else Some(st.(s := Below(st.s) + [Prg(bs.value)]))
    case Split =>
      if n == 0 || !st.s[n - 1].List? then None
      else Some(st.(s := st.s[..n - 1] + st.s[n - 1].items + [Size(|st.s[n - 1].items|)]))
    case AssertType =>
      if n <= 1 || !st.s[n - 1].TypeCode? || st.s[n - 2].Tag() != st.s[n - 1].typeCode then None
      else Some(st.(s := st.s[..n - 1]))
    case AssertValue =>
      if n <= 1 || env.hash(st.s[n - 1]) != env.hash(st.s[n - 2]) then None else Some(st.(s := st.s[..n - 1]))
    case Esba => Some(st.(s := st.s + [Size(st.bp)], bp := n))
    case Reba =>
      if n <= st.bp || n <= SavedBp(st.s, st.bp) then None
      else Some(st.(s := st.s[..st.bp], bp := SavedBp(st.s, st.bp)))
    case Pull =>
      if n <= st.bp then None else Some(st.(s := st.s[..st.bp] + st.s[st.bp + 1..], bp := SavedBp(st.s, st.bp)))
    case Frm => if n <= st.bp then None else Some(Push(st, Size(n - st.bp - 1)))
    case Unimplemented(_) => None
  }

  function Run(env: Env, st: Vm, prog: seq<Obj>): Option<Vm>
    decreases |prog|
  {
    if prog == [] then Some(st)
    else
      var next := Exec(env, st, prog[0]);
      if next.None? then None else Run(env, next.value, prog[1..])
  }

  lemma {:induction false} RunAppend(env: Env, st: Vm, p: seq<Obj>, q: seq<Obj>)
    ensures Run(env, st, p + q) ==
      match Run(env, st, p) case None => None case Some(mid) => Run(env, mid, q)
    decreases |p|
  {
    if p == [] {
      assert p + q == q;
    } else {
      assert (p + q)[1..] == p[1..] + q;
      var next := Exec(env, st, p[0]);
      if next.Some? {
        RunAppend(env, next.value, p[1..], q);
      }
    }
  }
}
