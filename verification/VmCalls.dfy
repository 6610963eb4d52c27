/** Generated calls, and programs that reach the machine in portions through its proxy. */
module VmCalls {
  import opened Dom
  import opened OpCodes
  import opened VmModel
  import opened VmPrograms

  // ---- generated call sequences -----------------------------------------

  datatype Request = InvokeCall(name: string, args: seq<Obj>) | ForwardCall(name: string, tag: nat, args: seq<Obj>)

  function Generate(c: Request): seq<Obj> {
    match c
    case InvokeCall(name, args) => args + [Size(|args|), Str(name), Instr(Invoke)]
    case ForwardCall(name, tag, args) => args + [Size(|args|), Str(name), Uuid(tag), Instr(Forward)]
  }

  function GenerateAll(calls: seq<Request>): seq<Obj> {
    if calls == [] then [] else Generate(calls[0]) + GenerateAll(calls[1..])
  }

  /** The message a call asks for: a forward to the machine's own tag stays at home. */
  function Meant(env: Env, c: Request): Sent {
    if c.ForwardCall? && c.tag != env.tag then ToOther(c.tag, c.name, c.args) else ToSelf(c.name, c.args)
  }

  function MeantAll(env: Env, calls: seq<Request>): seq<Sent> {
    seq(|calls|, i requires 0 <= i < |calls| => Meant(env, calls[i]))
  }

  /** What the generator's callers provide: plain arguments and a real target. */
  predicate Sound(c: Request) {
    && (forall i :: 0 <= i < |c.args| ==> !c.args[i].Instr?)
    && (c.ForwardCall? ==> c.tag != 0)
  }

  lemma TakesArgs(base: seq<Obj>, args: seq<Obj>, name: string)
    ensures TakeCall(base + args + [Size(|args|), Str(name)]) == Some((name, args, base))
  {
    var s := base + args + [Size(|args|), Str(name)];
    assert s[..|s| - 1] == base + args + [Size(|args|)];
    CountedOf(base, args);
  }

  /** The instruction with everything it needs on the stack. */
  lemma InvokeStep(env: Env, st: Vm, name: string, args: seq<Obj>, base: seq<Obj>)
    requires TakeCall(st.s) == Some((name, args, base))
    ensures ExecOp(env, st, Invoke) == Some(st.(s := base, sent := st.sent + [ToSelf(name, args)]))
  {
  }

  lemma ForwardStep(env: Env, st: Vm, call: seq<Obj>, tag: nat, name: string, args: seq<Obj>, base: seq<Obj>)
    requires tag != 0 && st.s == call + [Uuid(tag)] && TakeCall(call) == Some((name, args, base))
    ensures var msg := if tag == env.tag then ToSelf(name, args) else ToOther(tag, name, args);
      ExecOp(env, st, OpCodes.Forward) == Some(st.(s := base, sent := st.sent + [msg]))
  {
    assert st.s[..|st.s| - 1] == call;
  }

  lemma InvokeIssued(env: Env, st: Vm, name: string, args: seq<Obj>)
    requires forall i :: 0 <= i < |args| ==> !args[i].Instr?
    ensures Run(env, st, args + [Size(|args|), Str(name), Instr(Invoke)])
         == Some(st.(sent := st.sent + [ToSelf(name, args)]))
  {
    var head := args + [Size(|args|), Str(name)];
    assert args + [Size(|args|), Str(name), Instr(Invoke)] == head + [Instr(Invoke)];
    RunConstants(env, st, head);
    RunThen(env, st, head, Instr(Invoke));
    assert st.s + head == st.s + args + [Size(|args|), Str(name)];
    TakesArgs(st.s, args, name);
    InvokeStep(env, st.(s := st.s + head), name, args, st.s);
  }

  lemma ForwardIssued(env: Env, st: Vm, name: string, tag: nat, args: seq<Obj>)
    requires tag != 0 && forall i :: 0 <= i < |args| ==> !args[i].Instr?
    ensures var msg := if tag == env.tag then ToSelf(name, args) else ToOther(tag, name, args);
      Run(env, st, args + [Size(|args|), Str(name), Uuid(tag), Instr(OpCodes.Forward)])
      == Some(st.(sent := st.sent + [msg]))
  {
    var head := args + [Size(|args|), Str(name), Uuid(tag)];
    var call := st.s + args + [Size(|args|), Str(name)];
    assert args + [Size(|args|), Str(name), Uuid(tag), Instr(OpCodes.Forward)] == head + [Instr(OpCodes.Forward)];
    RunConstants(env, st, head);
    RunThen(env, st, head, Instr(OpCodes.Forward));
    assert st.s + head == call + [Uuid(tag)];
    TakesArgs(st.s, args, name);
    ForwardStep(env, st.(s := st.s + head), call, tag, name, args, st.s);
  }

  lemma OneCall(env: Env, st: Vm, c: Request)
    requires Sound(c)
    ensures Run(env, st, Generate(c)) == Some(st.(sent := st.sent + [Meant(env, c)]))
  {
    match c
    case InvokeCall(name, args) => InvokeIssued(env, st, name, args);
    case ForwardCall(name, tag, args) => ForwardIssued(env, st, name, tag, args);
  }

  /** Generated calls are issued exactly, in order, with their arguments in order, and
      leave stack and base pointer as they were. */
  lemma {:induction false} CallsIssued(env: Env, st: Vm, calls: seq<Request>)
    requires forall i :: 0 <= i < |calls| ==> Sound(calls[i])
    ensures Run(env, st, GenerateAll(calls)) == Some(st.(sent := st.sent + MeantAll(env, calls)))
    decreases |calls|
  {
    if calls == [] {
      assert MeantAll(env, calls) == [];
      assert st.sent + [] == st.sent;
    } else {
      var first, rest := Meant(env, calls[0]), MeantAll(env, calls[1..]);
      OneCall(env, st, calls[0]);
      RunAppend(env, st, Generate(calls[0]), GenerateAll(calls[1..]));
      CallsIssued(env, st.(sent := st.sent + [first]), calls[1..]);
      MeantFirst(env, calls);
      assert (st.sent + [first]) + rest == st.sent + ([first] + rest);
    }
  }

  lemma MeantFirst(env: Env, calls: seq<Request>)
    requires calls != []
    ensures MeantAll(env, calls) == [Meant(env, calls[0])] + MeantAll(env, calls[1..])
  {
  }

  // ---- portions ---------------------------------------------------------

  /** What the proxy posts to the machine's channel. */
  datatype Message = LoadOne(obj: Obj) | LoadMany(objs: seq<Obj>) | RunNow

  /** What a user asks the proxy for. */
  datatype ProxyCall = Load(obj: Obj) | LoadAll(objs: seq<Obj>) | Execute(objs: seq<Obj>) | RunAll

  /** Loading a single instruction also runs. */
  function Posted(p: ProxyCall): seq<Message> {
    match p
    case Load(obj) => if obj.Instr? then [LoadOne(obj), RunNow] else [LoadOne(obj)]
    case LoadAll(objs) => [LoadMany(objs)]
    case Execute(objs) => [LoadMany(objs), RunNow]
    case RunAll => [RunNow]
  }

  function PostedAll(ps: seq<ProxyCall>): seq<Message> {
    if ps == [] then [] else Posted(ps[0]) + PostedAll(ps[1..])
  }

  function GivenBy(p: ProxyCall): seq<Obj> {
    match p
    case Load(obj) => [obj]
    case LoadAll(objs) => objs
    case Execute(objs) => objs
    case RunAll => []
  }

  function Given(ps: seq<ProxyCall>): seq<Obj> {
    if ps == [] then [] else GivenBy(ps[0]) + Given(ps[1..])
  }

  datatype Machine = Machine(mem: seq<Obj>, pc: nat, vm: Vm)

  /** One message handled on the channel's strand: memory only grows, a run goes to its end. */
  function Handle(env: Env, mc: Machine, msg: Message): Option<Machine>
    requires mc.pc <= |mc.mem|
    ensures var r := Handle(env, mc, msg); r.Some? ==> r.value.pc <= |r.value.mem|
  {
    match msg
    case LoadOne(obj) => Some(mc.(mem := mc.mem + [obj]))
    case LoadMany(objs) => Some(mc.(mem := mc.mem + objs))
    case RunNow =>
      var r := Run(env, mc.vm, mc.mem[mc.pc..]);
      if r.None? then None else Some(Machine(mc.mem, |mc.mem|, r.value))
  }

  function HandleAll(env: Env, mc: Machine, msgs: seq<Message>): Option<Machine>
    requires mc.pc <= |mc.mem|
    decreases |msgs|
  {
    if msgs == [] then Some(mc)
    else
      var next := Handle(env, mc, msgs[0]);
      if next.None? then None else HandleAll(env, next.value, msgs[1..])
  }

  function Loaded(msgs: seq<Message>): seq<Obj> {
    if msgs == [] then []
    else (match msgs[0] case LoadOne(obj) => [obj] case LoadMany(objs) => objs case RunNow => []) + Loaded(msgs[1..])
  }

  lemma {:induction false} LoadedAppend(a: seq<Message>, b: seq<Message>)
    ensures Loaded(a + b) == Loaded(a) + Loaded(b)
    decreases |a|
  {
    if a == [] {
      assert a + b == b;
    } else {
      assert (a + b)[1..] == a[1..] + b;
      LoadedAppend(a[1..], b);
    }
  }

  lemma {:induction false} GivenIsLoaded(ps: seq<ProxyCall>)
    ensures Loaded(PostedAll(ps)) == Given(ps)
    decreases |ps|
  {
    if ps != [] {
      LoadedAppend(Posted(ps[0]), PostedAll(ps[1..]));
      GivenIsLoaded(ps[1..]);
      match ps[0]
      case Load(obj) =>
        if obj.Instr? { assert [LoadOne(obj), RunNow][1..] == [RunNow]; }
      case Execute(objs) => assert [LoadMany(objs), RunNow][1..] == [RunNow];
      case _ =>
    }
  }

  /** Messages without a run only fill the memory. */
  lemma {:induction false} LoadsOnly(env: Env, mc: Machine, msgs: seq<Message>)
    requires mc.pc <= |mc.mem| && forall i :: 0 <= i < |msgs| ==> !msgs[i].RunNow?
    ensures HandleAll(env, mc, msgs) == Some(mc.(mem := mc.mem + Loaded(msgs)))
    decreases |msgs|
  {
    if msgs == [] {
      assert mc.mem + [] == mc.mem;
    } else {
      var rest := msgs[1..];
      var objs := if msgs[0].LoadOne? then [msgs[0].obj] else msgs[0].objs;
      assert forall i :: 0 <= i < |rest| ==> rest[i] == msgs[i + 1];
      LoadsOnly(env, mc.(mem := mc.mem + objs), rest);
      assert Loaded(msgs) == objs + Loaded(rest);
      assert (mc.mem + objs) + Loaded(rest) == mc.mem + Loaded(msgs);
    }
  }

  /** The machine after everything loaded up to `run` was executed and `loaded` was loaded in all. */
  function Executed(env: Env, mc: Machine, run: seq<Obj>, loaded: seq<Obj>): Option<Machine>
    requires mc.pc <= |mc.mem|
  {
    var r := Run(env, mc.vm, mc.mem[mc.pc..] + run);
    if r.None? then None else Some(Machine(mc.mem + loaded, |mc.mem| + |run|, r.value))
  }

  lemma {:induction false} LoadedFirst(msgs: seq<Message>)
    requires msgs != []
    ensures msgs[0].RunNow? ==> Loaded(msgs) == Loaded(msgs[1..])
    ensures msgs[0].LoadOne? ==> Loaded(msgs) == [msgs[0].obj] + Loaded(msgs[1..])
    ensures msgs[0].LoadMany? ==> Loaded(msgs) == msgs[0].objs + Loaded(msgs[1..])
  {
  }

  lemma HandleRun(env: Env, mc: Machine, msgs: seq<Message>)
    requires mc.pc <= |mc.mem| && msgs != [] && msgs[0].RunNow?
    ensures var r := Run(env, mc.vm, mc.mem[mc.pc..]);
      HandleAll(env, mc, msgs) ==
        if r.None? then None else HandleAll(env, Machine(mc.mem, |mc.mem|, r.value), msgs[1..])
  {
  }

  /** A run, then only loads. */
  lemma {:induction false} LastRun(env: Env, mc: Machine, msgs: seq<Message>)
    requires mc.pc <= |mc.mem| && msgs != [] && msgs[0].RunNow?
    requires forall i :: 0 < i < |msgs| ==> !msgs[i].RunNow?
    ensures HandleAll(env, mc, msgs) == Executed(env, mc, [], Loaded(msgs))
  {
    var rest := msgs[1..];
    assert forall i :: 0 <= i < |rest| ==> rest[i] == msgs[i + 1];
    assert mc.mem[mc.pc..] + [] == mc.mem[mc.pc..];
    LoadedFirst(msgs);
    HandleRun(env, mc, msgs);
    var r := Run(env, mc.vm, mc.mem[mc.pc..]);
    if r.Some? {
      LoadsOnly(env, Machine(mc.mem, |mc.mem|, r.value), rest);
    }
  }

  /** A run, then messages that run `run` in all: together as if run in one go. */
  lemma {:induction false} RunFirst(env: Env, mc: Machine, msgs: seq<Message>, run: seq<Obj>, loaded: seq<Obj>)
    requires mc.pc <= |mc.mem| && msgs != [] && msgs[0].RunNow?
    requires forall vm ::
      HandleAll(env, Machine(mc.mem, |mc.mem|, vm), msgs[1..])
      == Executed(env, Machine(mc.mem, |mc.mem|, vm), run, loaded)
    ensures HandleAll(env, mc, msgs) == Executed(env, mc, run, loaded)
  {
    RunAppend(env, mc.vm, mc.mem[mc.pc..], run);
    assert mc.mem[|mc.mem|..] + run == run;
  }

  /** However a program is cut into loads and runs, what has been executed is everything
      loaded before the last run, as if run in one go; later loads wait in memory. */
  lemma {:induction false} Portions(env: Env, mc: Machine, msgs: seq<Message>, last: nat)
    requires mc.pc <= |mc.mem| && last < |msgs| && msgs[last].RunNow?
    requires forall i :: last < i < |msgs| ==> !msgs[i].RunNow?
    ensures HandleAll(env, mc, msgs) == Executed(env, mc, Loaded(msgs[..last]), Loaded(msgs))
    decreases |msgs|
  {
    if last == 0 {
      LastRun(env, mc, msgs);
      assert msgs[..last] == [];
    } else {
      var rest := msgs[1..];
      assert forall i :: 0 <= i < |rest| ==> rest[i] == msgs[i + 1];
      assert msgs[..last][0] == msgs[0] && msgs[..last][1..] == rest[..last - 1];
      LoadedFirst(msgs);
      LoadedFirst(msgs[..last]);
      var run := Loaded(rest[..last - 1]);
      match msgs[0]
      case RunNow =>
        forall vm ensures HandleAll(env, Machine(mc.mem, |mc.mem|, vm), rest)
          == Executed(env, Machine(mc.mem, |mc.mem|, vm), run, Loaded(rest))
        {
          Portions(env, Machine(mc.mem, |mc.mem|, vm), rest, last - 1);
        }
        RunFirst(env, mc, msgs, run, Loaded(rest));
      case LoadOne(obj) =>
        Portions(env, mc.(mem := mc.mem + [obj]), rest, last - 1);
        LoadFirst(env, mc, [obj], run, Loaded(rest));
      case LoadMany(objs) =>
        Portions(env, mc.(mem := mc.mem + objs), rest, last - 1);
        LoadFirst(env, mc, objs, run, Loaded(rest));
    }
  }

  lemma LoadFirst(env: Env, mc: Machine, objs: seq<Obj>, run: seq<Obj>, loaded: seq<Obj>)
    requires mc.pc <= |mc.mem|
    ensures Executed(env, mc.(mem := mc.mem + objs), run, loaded) == Executed(env, mc, objs + run, objs + loaded)
  {
    assert (mc.mem + objs)[mc.pc..] + run == mc.mem[mc.pc..] + (objs + run);
    assert (mc.mem + objs) + loaded == mc.mem + (objs + loaded);
  }

  // ---- what the proxy itself runs ---------------------------------------

  /** What the proxy is given: single objects, or whole programs. */
  lemma GivenLaw(obj: Obj, objs: seq<Obj>)
    ensures Given([Load(obj)]) == [obj] && Given([LoadAll(objs)]) == objs
    ensures Given([Execute(objs)]) == objs && Given([RunAll]) == []
  {
    GivenOne(Load(obj));
    GivenOne(LoadAll(objs));
    GivenOne(Execute(objs));
    GivenOne(RunAll);
  }

  lemma GivenOne(p: ProxyCall)
    ensures Given([p]) == GivenBy(p)
  {
    assert [p][1..] == [] && Given([]) == [];
  }

  lemma {:induction false} GivenAppend(a: seq<ProxyCall>, b: seq<ProxyCall>)
    ensures Given(a + b) == Given(a) + Given(b)
    decreases |a|
  {
    if a == [] {
      assert a + b == b;
    } else {
      assert (a + b)[0] == a[0] && (a + b)[1..] == a[1..] + b;
      GivenAppend(a[1..], b);
      assert GivenBy(a[0]) + (Given(a[1..]) + Given(b)) == (GivenBy(a[0]) + Given(a[1..])) + Given(b);
    }
  }

  lemma {:induction false} PostedAppend(a: seq<ProxyCall>, b: seq<ProxyCall>)
    ensures PostedAll(a + b) == PostedAll(a) + PostedAll(b)
    decreases |a|
  {
    if a == [] {
      assert a + b == b;
    } else {
      assert (a + b)[0] == a[0] && (a + b)[1..] == a[1..] + b;
      PostedAppend(a[1..], b);
      assert Posted(a[0]) + (PostedAll(a[1..]) + PostedAll(b)) == (Posted(a[0]) + PostedAll(a[1..])) + PostedAll(b);
    }
  }

  lemma PostedOne(p: ProxyCall)
    ensures PostedAll([p]) == Posted(p)
    ensures Runs(p) ==> Posted(p) != [] && Posted(p)[|Posted(p)| - 1] == RunNow
  {
    assert [p][1..] == [] && Posted(p) + [] == Posted(p);
  }

  /** execute and run run, and so does loading a single instruction. */
  predicate Runs(p: ProxyCall) { p.Execute? || p.RunAll? || (p.Load? && p.obj.Instr?) }

  lemma {:induction false} LoadsPosted(ps: seq<ProxyCall>)
    requires forall i :: 0 <= i < |ps| ==> !Runs(ps[i])
    ensures forall i :: 0 <= i < |PostedAll(ps)| ==> !PostedAll(ps)[i].RunNow?
    decreases |ps|
  {
    if ps != [] {
      var rest := ps[1..];
      assert forall i :: 0 <= i < |rest| ==> rest[i] == ps[i + 1];
      LoadsPosted(rest);
      assert forall i :: 0 <= i < |Posted(ps[0])| ==> !Posted(ps[0])[i].RunNow?;
    }
  }

  /** As long as nothing runs, everything given waits in memory. */
  lemma NothingRuns(env: Env, mc: Machine, ps: seq<ProxyCall>)
    requires mc.pc <= |mc.mem| && forall i :: 0 <= i < |ps| ==> !Runs(ps[i])
    ensures HandleAll(env, mc, PostedAll(ps)) == Some(mc.(mem := mc.mem + Given(ps)))
  {
    LoadsPosted(ps);
    LoadsOnly(env, mc, PostedAll(ps));
    GivenIsLoaded(ps);
  }

  /** The messages up to a call that runs end with the run. */
  lemma EndsWithRun(ps: seq<ProxyCall>, n: nat)
    requires n < |ps| && Runs(ps[n])
    ensures var msgs := PostedAll(ps[..n + 1]); msgs != [] && msgs[|msgs| - 1].RunNow?
  {
    assert ps[..n + 1] == ps[..n] + [ps[n]];
    PostedAppend(ps[..n], [ps[n]]);
    PostedOne(ps[n]);
  }

  lemma LoadedBeforeRun(msgs: seq<Message>)
    requires msgs != [] && msgs[|msgs| - 1].RunNow?
    ensures Loaded(msgs[..|msgs| - 1]) == Loaded(msgs)
  {
    assert msgs == msgs[..|msgs| - 1] + [RunNow];
    LoadedAppend(msgs[..|msgs| - 1], [RunNow]);
    assert Loaded([RunNow]) == [];
  }

  lemma NoRunAfter(head: seq<Message>, tail: seq<Message>)
    requires head != [] && head[|head| - 1].RunNow? && forall i :: 0 <= i < |tail| ==> !tail[i].RunNow?
    ensures var msgs, last := head + tail, |head| - 1;
      && msgs[last].RunNow? && (forall i :: last < i < |msgs| ==> !msgs[i].RunNow?) && msgs[..last] == head[..last]
  {
  }

  /** Whatever the proxy is asked, exactly what was given up to the last call that runs has been
      executed, as if in one go; what came later waits. Nothing is added to what the proxy posts. */
  lemma ProxyRuns(env: Env, mc: Machine, ps: seq<ProxyCall>, n: nat)
    requires mc.pc <= |mc.mem| && n < |ps|
    requires ps[n].Execute? || ps[n].RunAll? || (ps[n].Load? && ps[n].obj.Instr?)
    requires forall i :: n < i < |ps| ==> ps[i].LoadAll? || (ps[i].Load? && !ps[i].obj.Instr?)
    ensures var done := Given(ps[..n + 1]);
      var r := Run(env, mc.vm, mc.mem[mc.pc..] + done);
      HandleAll(env, mc, PostedAll(ps)) ==
        if r.None? then None else Some(Machine(mc.mem + Given(ps), |mc.mem| + |done|, r.value))
  {
    ProxyExecuted(env, mc, ps, n);
  }

  lemma ProxyExecuted(env: Env, mc: Machine, ps: seq<ProxyCall>, n: nat)
    requires mc.pc <= |mc.mem| && n < |ps| && Runs(ps[n]) && forall i :: n < i < |ps| ==> !Runs(ps[i])
    ensures HandleAll(env, mc, PostedAll(ps)) == Executed(env, mc, Given(ps[..n + 1]), Given(ps))
  {
    LastRunAt(ps, n);
    Portions(env, mc, PostedAll(ps), |PostedAll(ps[..n + 1])| - 1);
  }

  /** Where the last run is among what is posted. */
  lemma LastRunAt(ps: seq<ProxyCall>, n: nat)
    requires n < |ps| && Runs(ps[n]) && forall i :: n < i < |ps| ==> !Runs(ps[i])
    ensures var msgs, last := PostedAll(ps), |PostedAll(ps[..n + 1])| - 1;
      && 0 <= last < |msgs| && msgs[last].RunNow? && (forall i :: last < i < |msgs| ==> !msgs[i].RunNow?)
      && Loaded(msgs[..last]) == Given(ps[..n + 1]) && Loaded(msgs) == Given(ps)
  {
    var head, tail := PostedAll(ps[..n + 1]), PostedAll(ps[n + 1..]);
    assert PostedAll(ps) == head + tail by {
      assert ps == ps[..n + 1] + ps[n + 1..];
      PostedAppend(ps[..n + 1], ps[n + 1..]);
    }
    EndsWithRun(ps, n);
    LoadsPosted(ps[n + 1..]);
    NoRunAfter(head, tail);
    LoadedBeforeRun(head);
    GivenIsLoaded(ps[..n + 1]);
    GivenIsLoaded(ps);
  }

  /** An idle machine whose proxy is given generated calls in any portions, the last of which
      runs, issues exactly these calls in order and is idle again. */
  lemma CallsExecuted(env: Env, mc: Machine, ps: seq<ProxyCall>, calls: seq<Request>)
    requires mc.pc == |mc.mem| && Given(ps) == GenerateAll(calls) && forall i :: 0 <= i < |calls| ==> Sound(calls[i])
    requires ps != []
    requires var p := ps[|ps| - 1]; p.Execute? || p.RunAll? || (p.Load? && p.obj.Instr?)
    ensures HandleAll(env, mc, PostedAll(ps)) ==
      Some(Machine(mc.mem + Given(ps), |mc.mem| + |Given(ps)|, mc.vm.(sent := mc.vm.sent + MeantAll(env, calls))))
  {
    CallsIssued(env, mc.vm, calls);
    IdleProxyRuns(env, mc, ps, mc.vm.(sent := mc.vm.sent + MeantAll(env, calls)));
  }

  lemma IdleProxyRuns(env: Env, mc: Machine, ps: seq<ProxyCall>, vm: Vm)
    requires mc.pc == |mc.mem| && ps != [] && Runs(ps[|ps| - 1]) && Run(env, mc.vm, Given(ps)) == Some(vm)
    ensures HandleAll(env, mc, PostedAll(ps)) == Some(Machine(mc.mem + Given(ps), |mc.mem| + |Given(ps)|, vm))
  {
    ProxyExecuted(env, mc, ps, |ps| - 1);
    assert ps[..|ps| - 1 + 1] == ps;
    RunIdle(env, mc, Given(ps), vm);
  }

  lemma RunIdle(env: Env, mc: Machine, run: seq<Obj>, vm: Vm)
    requires mc.pc == |mc.mem| && Run(env, mc.vm, run) == Some(vm)
    ensures Executed(env, mc, run, run) == Some(Machine(mc.mem + run, |mc.mem| + |run|, vm))
  {
    assert mc.mem[mc.pc..] + run == run;
  }

  /** The end-to-end promise of generator, proxy and machine: generated calls handed over in any
      portions, whether some of them run or not, and then run, are issued exactly and in order. */
  lemma CallsThroughProxy(env: Env, mc: Machine, ps: seq<ProxyCall>, calls: seq<Request>)
    requires mc.pc == |mc.mem| && Given(ps) == GenerateAll(calls)
    requires forall i :: 0 <= i < |calls| ==> Sound(calls[i])
    ensures HandleAll(env, mc, PostedAll(ps + [RunAll])) ==
      Some(Machine(mc.mem + Given(ps), |mc.mem| + |Given(ps)|, mc.vm.(sent := mc.vm.sent + MeantAll(env, calls))))
  {
    var all := ps + [RunAll];
    RunAdded(ps);
    assert all != [] && all[|all| - 1] == RunAll;
    CallsExecuted(env, mc, all, calls);
  }

  lemma RunAdded(ps: seq<ProxyCall>)
    ensures Given(ps + [RunAll]) == Given(ps)
  {
    GivenAppend(ps, [RunAll]);
    GivenOne(RunAll);
    assert Given(ps) + [] == Given(ps);
  }

  /** In particular one execute of one generated invoke or forward issues it. */
  lemma ExecuteIssues(env: Env, mc: Machine, name: string, tag: nat, args: seq<Obj>)
    requires mc.pc == |mc.mem| && tag != 0 && forall i :: 0 <= i < |args| ==> !args[i].Instr?
    ensures var prog := args + [Size(|args|), Str(name), Instr(Invoke)];
      HandleAll(env, mc, PostedAll([Execute(prog)])) ==
        Some(Machine(mc.mem + prog, |mc.mem + prog|, mc.vm.(sent := mc.vm.sent + [ToSelf(name, args)])))
    ensures var prog := args + [Size(|args|), Str(name), Uuid(tag), Instr(OpCodes.Forward)];
      var msg := if tag == env.tag then ToSelf(name, args) else ToOther(tag, name, args);
      HandleAll(env, mc, PostedAll([Execute(prog)])) ==
        Some(Machine(mc.mem + prog, |mc.mem + prog|, mc.vm.(sent := mc.vm.sent + [msg])))
  {
    InvokeIssued(env, mc.vm, name, args);
    ForwardIssued(env, mc.vm, name, tag, args);
    ExecuteOne(env, mc, args + [Size(|args|), Str(name), Instr(Invoke)]);
    ExecuteOne(env, mc, args + [Size(|args|), Str(name), Uuid(tag), Instr(OpCodes.Forward)]);
  }

  lemma ExecuteOne(env: Env, mc: Machine, prog: seq<Obj>)
    requires mc.pc == |mc.mem|
    ensures var r := Run(env, mc.vm, prog);
      HandleAll(env, mc, PostedAll([Execute(prog)])) ==
        if r.None? then None else Some(Machine(mc.mem + prog, |mc.mem + prog|, r.value))
  {
    var ps := [Execute(prog)];
    ProxyRuns(env, mc, ps, 0);
    assert ps[..1] == ps;
    GivenOne(Execute(prog));
    assert mc.mem[mc.pc..] + prog == prog;
  }
}
