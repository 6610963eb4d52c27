/** The stack and the machine as objects that change in place; a false result stands for a
    failed assertion. Each method is proved against the functions of VmModel. */
module Vm {
  import opened Dom
  import opened OpCodes
  import opened Schema
  import opened VmModel

  /** Gathering fails as soon as any upper part of the slots fails. */
  lemma {:induction false} GatherFails(kind: PairKind, slots: seq<Obj>, i: nat)
    requires i <= |slots| && Gather(kind, slots[i..]).None?
    ensures Gather(kind, slots).None?
    decreases i
  {
    if i == 0 {
      assert slots[0..] == slots;
    } else {
      assert slots[i - 1..][1..] == slots[i..];
      GatherFails(kind, slots, i - 1);
    }
  }

  lemma {:induction false} GatherBuffersFails(slots: seq<Obj>, i: nat)
    requires i <= |slots| && GatherBuffers(slots[i..]).None?
    ensures GatherBuffers(slots).None?
    decreases i
  {
    if i == 0 {
      assert slots[0..] == slots;
    } else {
      assert slots[i - 1..][1..] == slots[i..];
      GatherBuffersFails(slots, i - 1);
    }
  }

  class Stack {
    var s: seq<Obj>
    var bp: nat

    constructor ()
      ensures s == [] && bp == 0
    {
      s, bp := [], 0;
    }

    /** The stack as the model sees it, with the messages sent elsewhere. */
    ghost function With(sent: seq<Sent>): VmModel.Vm
      reads this
    {
      VmModel.Vm(s, bp, sent)
    }

    /** This state is the outcome of an instruction, or the instruction asserted. */
    ghost predicate Did(next: Option<VmModel.Vm>, ok: bool)
      reads this
    {
      ok == next.Some? && (ok ==> s == next.value.s && bp == next.value.bp)
    }

    method Push(o: Obj)
      modifies this`s
      ensures s == old(s) + [o]
    {
      s := s + [o];
    }

    method Remove() returns (o: Obj)
      requires s != []
      modifies this`s
      ensures old(s) == s + [o]
    {
      o := s[|s| - 1];
      s := s[..|s| - 1];
    }

    method Esba(ghost sent: seq<Sent>, ghost env: Env)
      modifies this
      ensures Did(ExecOp(env, old(With(sent)), OpCodes.Esba), true)
    {
      var was := bp;
      bp := |s|;
      Push(Size(was));
    }

    method SavedBase() returns (base: nat)
      requires bp < |s|
      ensures base == SavedBp(s, bp)
    {
      base := if s[bp].Size? then s[bp].n else 0;
    }

    method Reba(ghost sent: seq<Sent>, ghost env: Env) returns (ok: bool)
      modifies this
      ensures Did(ExecOp(env, old(With(sent)), OpCodes.Reba), ok)
    {
      var was := bp;
      if |s| <= bp { return false; }
      bp := SavedBase();
      if |s| <= bp { return false; }
      s := s[..was];
      return true;
    }

    method Pull(ghost sent: seq<Sent>, ghost env: Env) returns (ok: bool)
      modifies this
      ensures Did(ExecOp(env, old(With(sent)), OpCodes.Pull), ok)
    {
      var was := bp;
      if |s| <= bp { return false; }
      bp := SavedBase();
      s := s[..was] + s[was + 1..];
      return true;
    }

    method Frm(ghost sent: seq<Sent>, ghost env: Env) returns (ok: bool)
      modifies this
      ensures Did(ExecOp(env, old(With(sent)), OpCodes.Frm), ok)
    {
      if |s| <= bp { return false; }
      var size := |s| - bp;
      Push(Size(size - 1));
      return true;
    }

    /** make_attr, make_param and make_prop differ in the type of the key they pop. */
    method MakePair(kind: PairKind, ghost sent: seq<Sent>) returns (ok: bool)
      modifies this
      ensures Did(VmModel.MakePair(kind, old(With(sent))), ok)
    {
      if |s| <= 1 { return false; }
      var top := Remove();
      var key: Key;
      match (kind, top) {
        case (Attr, Size(i)) => key := Index(i);
        case (Param, Str(name)) => key := Name(name);
        case (Prop, Obis(code)) => key := Code(code);
        case _ => return false;
      }
      var val := Remove();
      Push(Pair(kind, key, val));
      return true;
    }

    /** The container size on top, which must leave that many values below it. */
    method PopCount() returns (ok: bool, size: nat)
      modifies this`s
      ensures ok == HasCounted(old(s))
      ensures ok ==> size == old(s)[|old(s)| - 1].n && s == old(s)[..|old(s)| - 1] && size <= |s|
      ensures ok ==> Counted(old(s)) == s[|s| - size..] && Below(old(s)) == s[..|s| - size]
      ensures !ok ==> s == old(s)
    {
      size := 0;
      if s == [] || !s[|s| - 1].Size? || |s| <= s[|s| - 1].n { return false, 0; }
      size := s[|s| - 1].n;
      s := s[..|s| - 1];
      ok := true;
    }

    /** Pops the top one of the `size` slots that still belong to a container. */
    method PopSlot(ghost below: seq<Obj>, ghost slots: seq<Obj>, size: nat) returns (o: Obj)
      requires 0 < size <= |slots| && s == below + slots[..size]
      modifies this`s
      ensures s == below + slots[..size - 1] && o == slots[size - 1]
      ensures slots[size - 1..] == [o] + slots[size..]
    {
      o := s[|s| - 1];
      s := s[..|s| - 1];
    }

    method MakeMap(kind: PairKind, ghost sent: seq<Sent>) returns (ok: bool)
      modifies this
      ensures Did(VmModel.MakeMap(kind, old(With(sent))), ok)
    {
      if kind == Attr && |s| <= 1 { return false; }
      var m;
      ok, m := TakeEntries(kind);
      if ok {
        Push(Map(kind, m));
      }
    }

    /** The loop of make_attr_map, make_param_map and make_prop_map: a key already there stays. */
    method TakeEntries(kind: PairKind) returns (ok: bool, m: map<Key, Obj>)
      modifies this`s
      ensures ok == (HasCounted(old(s)) && Gather(kind, Counted(old(s))).Some?)
      ensures ok ==> Gather(kind, Counted(old(s))) == Some(m) && s == Below(old(s))
    {
      var size: nat;
      ok, size := PopCount();
      m := map[];
      if !ok { return; }
      ghost var slots, below := s[|s| - size..], s[..|s| - size];
      assert slots[size..] == [];
      while size != 0
        invariant size <= |slots| && s == below + slots[..size]
        invariant Gather(kind, slots[size..]) == Some(m)
      {
        var p := PopSlot(below, slots, size);
        assert slots[size - 1..][1..] == slots[size..];
        size := size - 1;
        if !IsPair(p, kind) {
          GatherFails(kind, slots, size);
          return false, m;
        }
        if p.key !in m {
          m := m[p.key := p.val];
        }
      }
      assert slots[0..] == slots && slots[..0] == [];
    }

    method MakeList(kind: ListKind, ghost sent: seq<Sent>) returns (ok: bool)
      modifies this
      ensures Did(VmModel.MakeList(kind, old(With(sent))), ok)
    {
      var items;
      ok, items := TakeItems();
      if ok {
        Push(List(kind, items));
      }
    }

    /** The loop of make_tuple, make_vector and make_deque: the topmost value comes first. */
    method TakeItems() returns (ok: bool, items: seq<Obj>)
      modifies this`s
      ensures ok == HasCounted(old(s))
      ensures ok ==> items == Reverse(Counted(old(s))) && s == Below(old(s))
    {
      var size: nat;
      ok, size := PopCount();
      items := [];
      if !ok { return; }
      ghost var slots, below := s[|s| - size..], s[..|s| - size];
      assert slots[size..] == [];
      while size != 0
        invariant size <= |slots| && s == below + slots[..size]
        invariant items == Reverse(slots[size..])
      {
        var o := PopSlot(below, slots, size);
        assert slots[size - 1..][1..] == slots[size..];
        items := items + [o];
        size := size - 1;
      }
      assert slots[0..] == slots && slots[..0] == [];
    }

    method MakePrg(ghost sent: seq<Sent>, ghost env: Env) returns (ok: bool)
      modifies this
      ensures Did(ExecOp(env, old(With(sent)), OpCodes.MakePrg), ok)
    {
      var prg;
      ok, prg := TakeBuffers();
      if ok {
        Push(Prg(prg));
      }
    }

    method TakeBuffers() returns (ok: bool, prg: seq<seq<nat>>)
      modifies this`s
      ensures ok == (HasCounted(old(s)) && GatherBuffers(Counted(old(s))).Some?)
      ensures ok ==> GatherBuffers(Counted(old(s))) == Some(prg) && s == Below(old(s))
    {
      var size: nat;
      ok, size := PopCount();
      prg := [];
      if !ok { return; }
      ghost var slots, below := s[|s| - size..], s[..|s| - size];
      assert slots[size..] == [];
      while size != 0
        invariant size <= |slots| && s == below + slots[..size]
        invariant GatherBuffers(slots[size..]) == Some(prg)
      {
        var o := PopSlot(below, slots, size);
        assert slots[size - 1..][1..] == slots[size..];
        size := size - 1;
        if !o.Buffer? {
          GatherBuffersFails(slots, size);
          return false, prg;
        }
        prg := prg + [o.bytes];
      }
      assert slots[0..] == slots && slots[..0] == [];
    }

    /** Pushes all elements of the container on top, then their count. */
    method Split(ghost sent: seq<Sent>, ghost env: Env) returns (ok: bool)
      modifies this
      ensures Did(ExecOp(env, old(With(sent)), OpCodes.Split), ok)
    {
      if s == [] || !s[|s| - 1].List? { return false; }
      var c := Remove();
      for i := 0 to |c.items|
        invariant s == old(s)[..|old(s)| - 1] + c.items[..i] && bp == old(bp)
      {
        Push(c.items[i]);
      }
      Push(Size(|c.items|));
      return true;
    }

    method AssertType(ghost sent: seq<Sent>, ghost env: Env) returns (ok: bool)
      modifies this
      ensures Did(ExecOp(env, old(With(sent)), OpCodes.AssertType), ok)
    {
      if |s| <= 1 || !s[|s| - 1].TypeCode? { return false; }
      var t := Remove();
      return s[|s| - 1].Tag() == t.typeCode;
    }

    method AssertValue(ghost sent: seq<Sent>, env: Env) returns (ok: bool)
      modifies this
      ensures Did(ExecOp(env, old(With(sent)), OpCodes.AssertValue), ok)
    {
      if |s| <= 1 { return false; }
      var o := Remove();
      return env.hash(o) == env.hash(s[|s| - 1]);
    }

    /** Name, count and arguments of a call; making a tuple reverses the arguments, so they are reversed again. */
    method Invoke() returns (ok: bool, name: string, args: seq<Obj>)
      modifies this`s
      ensures ok == TakeCall(old(s)).Some?
      ensures ok ==> TakeCall(old(s)) == Some((name, args, s))
    {
      ok, name, args := false, "", [];
      if |s| <= 1 || !s[|s| - 1].Str? { return; }
      var top := Remove();
      name := top.s;
      ghost var rest := s;
      ok, args := TakeItems();
      if ok {
        ReverseTwice(Counted(rest));
        args := Reverse(args);
      }
    }

    method InvokeR() returns (ok: bool, id: nat, args: seq<Obj>)
      modifies this`s
      ensures var n := |old(s)|;
        ok == (n > 1 && old(s)[n - 1].Size? && old(s)[n - 1].n != NPOS && HasCounted(old(s)[..n - 1]))
      ensures ok ==> var rest := old(s)[..|old(s)| - 1];
        id == old(s)[|old(s)| - 1].n && args == Counted(rest) && s == Below(rest)
    {
      ok, id, args := false, 0, [];
      if |s| <= 1 || !s[|s| - 1].Size? || s[|s| - 1].n == NPOS { return; }
      var top := Remove();
      id := top.n;
      ghost var rest := s;
      ok, args := TakeItems();
      if ok {
        ReverseTwice(Counted(rest));
        args := Reverse(args);
      }
    }
  }

  class Machine {
    const env: Env
    const stack: Stack
    var mem: seq<Obj>
    var pc: nat
    var sent: seq<Sent>

    constructor (env: Env)
      ensures this.env == env && fresh(stack) && mem == [] && pc == 0 && State() == VmModel.Vm([], 0, [])
    {
      this.env := env;
      stack := new Stack();
      mem, pc, sent := [], 0, [];
    }

    ghost function State(): VmModel.Vm
      reads this, stack
    {
      VmModel.Vm(stack.s, stack.bp, sent)
    }

    method Load(obj: Obj)
      modifies this`mem
      ensures mem == old(mem) + [obj]
    {
      mem := mem + [obj];
    }

    method LoadAll(objs: seq<Obj>)
      modifies this`mem
      ensures mem == old(mem) + objs
    {
      mem := mem + objs;
    }

    /** Runs until the program counter reaches the end of memory or an instruction asserts. */
    method Run() returns (ok: bool)
      requires pc <= |mem|
      modifies this`pc, this`sent, stack
      ensures ok == VmModel.Run(env, old(State()), mem[old(pc)..]).Some?
      ensures ok ==> State() == VmModel.Run(env, old(State()), mem[old(pc)..]).value && pc == |mem|
    {
      while pc < |mem|
        invariant pc <= |mem|
        invariant VmModel.Run(env, old(State()), mem[old(pc)..]) == VmModel.Run(env, State(), mem[pc..])
      {
        assert mem[pc..][0] == mem[pc] && mem[pc..][1..] == mem[pc + 1..];
        ok := Exec(mem[pc]);
        if !ok { return; }
        pc := pc + 1;
      }
      ok := true;
    }

    method Exec(obj: Obj) returns (ok: bool)
      modifies this`sent, stack
      ensures ok == VmModel.Exec(env, old(State()), obj).Some?
      ensures ok ==> State() == VmModel.Exec(env, old(State()), obj).value
    {
      if obj.Instr? {
        ok := ExecCode(obj.op);
      } else {
        stack.Push(obj);
        ok := true;
      }
    }

    method ExecCode(op: Op) returns (ok: bool)
      modifies this`sent, stack
      ensures ok == ExecOp(env, old(State()), op).Some?
      ensures ok ==> State() == ExecOp(env, old(State()), op).value
    {
      ok := true;
      match op
      case Noop =>
      case Tidy =>
      case Halt =>
      case Now => stack.Push(env.now);
      case Pid => stack.Push(env.pid);
      case Tid => stack.Push(env.tid);
      case Ident => stack.Push(Uuid(env.tag));
      case Resolve => ok := Resolve();
      case Invoke => ok := Invoke();
      case InvokeR => ok := InvokeR();
      case Forward => ok := Forward();
      case MakeAttr => ok := stack.MakePair(Attr, sent);
      case MakeParam => ok := stack.MakePair(Param, sent);
      case MakeProp => ok := stack.MakePair(Prop, sent);
      case MakeAttrMap => ok := stack.MakeMap(Attr, sent);
      case MakeParamMap => ok := stack.MakeMap(Param, sent);
      case MakePropMap => ok := stack.MakeMap(Prop, sent);
      case MakeTuple => ok := stack.MakeList(Tuple, sent);
      case MakeVector => ok := stack.MakeList(Vector, sent);
      case MakeDeque => ok := stack.MakeList(Deque, sent);
      case MakePrg => ok := stack.MakePrg(sent, env);
      case Split => ok := stack.Split(sent, env);
      case AssertType => ok := stack.AssertType(sent, env);
      case AssertValue => ok := stack.AssertValue(sent, env);
      case Esba => stack.Esba(sent, env);
      case Reba => ok := stack.Reba(sent, env);
      case Pull => ok := stack.Pull(sent, env);
      case Frm => ok := stack.Frm(sent, env);
      case Unimplemented(_) => ok := false;
    }

    method Resolve() returns (ok: bool)
      modifies stack
      ensures stack.Did(ExecOp(env, old(State()), OpCodes.Resolve), ok)
    {
      if stack.s == [] || !stack.s[|stack.s| - 1].Str? { return false; }
      var name := stack.Remove();
      stack.Push(Size(if name.s in env.names then env.names[name.s] else NPOS));
      return true;
    }

    method Invoke() returns (ok: bool)
      modifies this`sent, stack
      ensures ok == ExecOp(env, old(State()), OpCodes.Invoke).Some?
      ensures ok ==> State() == ExecOp(env, old(State()), OpCodes.Invoke).value
    {
      var name, args;
      ok, name, args := stack.Invoke();
      if ok {
        sent := sent + [ToSelf(name, args)];
      }
    }

    method Forward() returns (ok: bool)
      modifies this`sent, stack
      ensures ok == ExecOp(env, old(State()), OpCodes.Forward).Some?
      ensures ok ==> State() == ExecOp(env, old(State()), OpCodes.Forward).value
    {
      var n := |stack.s|;
      if n == 0 || !stack.s[n - 1].Uuid? || stack.s[n - 1].uuid == 0 { return false; }
      var tag := stack.Remove();
      assert stack.s == old(stack.s)[..n - 1];
      var name, args;
      ok, name, args := stack.Invoke();
      if ok {
        if tag.uuid == env.tag {
          sent := sent + [ToSelf(name, args)];
        } else {
          sent := sent + [ToOther(tag.uuid, name, args)];
        }
      }
    }

    /** Walks the function table from its end down to the requested id. */
    method InvokeR() returns (ok: bool)
      modifies this`sent, stack
      ensures ok == ExecOp(env, old(State()), OpCodes.InvokeR).Some?
      ensures ok ==> State() == ExecOp(env, old(State()), OpCodes.InvokeR).value
    {
      var id, args;
      ok, id, args := stack.InvokeR();
      if !ok || id < OFFSET || OFFSET + |env.fns| <= id { return false; }
      var n := |env.fns| - 1;
      while OFFSET + n != id
        invariant 0 <= n < |env.fns| && id <= OFFSET + n
      {
        n := n - 1;
      }
      if env.fns[n].Returns? {
        stack.Push(env.fns[n].fn(args));
      }
    }
  }
}
