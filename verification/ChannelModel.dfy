/** A channel: an open flag, a timer and a strand that runs posted handlers one at a time,
    in posting order. Every thread's calls and the strand's own moves interleave freely. */
module ChannelModel {
  import opened Dom
  import opened Schema

  type Msg = seq<Obj>

  /** A handler posted to the strand. */
  datatype Job =
    | Call(slot: nat, msg: Msg)
    | Chain(slot: nat, msg: Msg, consumer: string)
    | Timer(slot: nat, msg: Msg, aborted: bool)
    | StopTask

  /** `current` is the handler whose slot function is executing. `accepted` and `ran` record
      the messages taken by dispatch and next, and the handlers that got to call the task. */
  datatype Chan = Chan(open: bool, slots: nat, names: map<string, nat>, queue: seq<Job>,
                       current: Option<Job>, wait: Option<Job>, accepted: seq<Job>, ran: seq<Job>)

  datatype Action =
    | Dispatch(slot: nat, msg: Msg)
    | Next(producer: string, consumer: string, msg: Msg)
    | SetName(name: string, slot: nat)
    | Suspend(slot: nat, msg: Msg)
    | CancelTimer
    | Stop
    | Expire  // the armed time has come
    | Begin   // the strand takes its next handler
    | End     // the executing slot function returns

  /** The task's slot functions. */
  type Task = (nat, Msg) -> Msg

  /** emplace: a name already known keeps its slot. */
  function Named(names: map<string, nat>, name: string, slot: nat): map<string, nat> {
    if name in names then names else names[name := slot]
  }

  function SlotOf(names: map<string, nat>, name: string): nat { if name in names then names[name] else NPOS }

  predicate IsOpen(c: Chan, slot: nat) { c.open && slot < c.slots }

  function Post(c: Chan, slot: nat, job: Job): Chan {
    if IsOpen(c, slot) then c.(queue := c.queue + [job], accepted := c.accepted + [job]) else c
  }

  /** An armed wait that is cancelled still completes, with an error. */
  function Cancel(c: Chan): Chan
    requires Armed(c)
  {
    if c.wait.None? then c
    else c.(wait := None, queue := c.queue + [Timer(c.wait.value.slot, c.wait.value.msg, true)])
  }

  /** The check each handler makes before it calls the task. */
  predicate Passes(c: Chan, job: Job) {
    match job
    case Call(slot, _) => IsOpen(c, slot)
    case Chain(slot, _, _) => IsOpen(c, slot)
    case Timer(slot, _, aborted) => !aborted && IsOpen(c, slot)
    case StopTask => true
  }

  predicate Armed(c: Chan) { c.wait.Some? ==> c.wait.value.Timer? }

  function Step(task: Task, c: Chan, a: Action): (c': Chan)
    requires Armed(c)
    ensures Armed(c') && c'.slots == c.slots
  {
    match a
    case Dispatch(slot, msg) => Post(c, slot, Call(slot, msg))
    case Next(producer, consumer, msg) =>
      var slot := SlotOf(c.names, producer);
      Post(c, slot, Chain(slot, msg, consumer))
    case SetName(name, slot) => c.(names := Named(c.names, name, slot))
    case Suspend(slot, msg) => if IsOpen(c, slot) then Cancel(c).(wait := Some(Timer(slot, msg, false))) else c
    case CancelTimer => Cancel(c)
    case Stop => if c.open then var d := Cancel(c.(open := false)); d.(queue := d.queue + [StopTask]) else c
    case Expire => if c.wait.Some? then c.(wait := None, queue := c.queue + [c.wait.value]) else c
    case Begin =>
      if c.current.Some? || c.queue == [] then c
      else
        var job, d := c.queue[0], c.(queue := c.queue[1..]);
        if Passes(c, job) then d.(current := Some(job), ran := c.ran + [job]) else d
    case End =>
      if c.current.None? then c
      else
        var job, d := c.current.value, c.(current := None);
        // the producer's result goes to the slot that has the consumer's name by now
        var slot := if job.Chain? then SlotOf(c.names, job.consumer) else NPOS;
        if job.Chain? then Post(d, slot, Call(slot, task(job.slot, job.msg))) else d
  }

  function Fresh(slots: nat): Chan { Chan(true, slots, map[], [], None, None, [], []) }

  // ---- every interleaving -----------------------------------------------

  /** The messages among handlers. */
  function Messages(jobs: seq<Job>): seq<Job> {
    if jobs == [] then []
    else (if jobs[0].Call? || jobs[0].Chain? then [jobs[0]] else []) + Messages(jobs[1..])
  }

  lemma {:induction false} MessagesAppend(a: seq<Job>, b: seq<Job>)
    ensures Messages(a + b) == Messages(a) + Messages(b)
    decreases |a|
  {
    if a == [] {
      assert a + b == b;
    } else {
      assert (a + b)[0] == a[0] && (a + b)[1..] == a[1..] + b;
      MessagesAppend(a[1..], b);
      var first := if a[0].Call? || a[0].Chain? then [a[0]] else [];
      assert first + (Messages(a[1..]) + Messages(b)) == first + Messages(a[1..]) + Messages(b);
    }
  }

  lemma {:induction false} MessagesOne(jobs: seq<Job>, job: Job)
    ensures Messages(jobs + [job]) == Messages(jobs) + if job.Call? || job.Chain? then [job] else []
  {
    MessagesAppend(jobs, [job]);
    assert Messages([job]) == (if job.Call? || job.Chain? then [job] else []) + Messages([]);
  }

  ghost predicate Run(task: Task, states: seq<Chan>, actions: seq<Action>) {
    && |states| == |actions| + 1
    && (forall i :: 0 <= i < |states| ==> Armed(states[i]))
    && forall i :: 0 <= i < |actions| ==> states[i + 1] == Step(task, states[i], actions[i])
  }

  /** While open: what was accepted has either run or waits in the queue, in order, and all
      slots in the queue exist. */
  predicate Flows(c: Chan) {
    && c.open && Armed(c) && StopTask !in c.queue && StopTask !in c.ran
    && (forall i :: 0 <= i < |c.queue| ==> c.queue[i].slot < c.slots)
    && (c.wait.Some? ==> c.wait.value.slot < c.slots)
    && Messages(c.ran) + Messages(c.queue) == c.accepted
  }

  lemma {:induction false} MessagesFirst(jobs: seq<Job>)
    requires jobs != []
    ensures Messages(jobs) == (if jobs[0].Call? || jobs[0].Chain? then [jobs[0]] else []) + Messages(jobs[1..])
  {
  }

  lemma PostFlows(c: Chan, slot: nat, job: Job)
    requires Flows(c) && (job.Call? || job.Chain?) && job.slot == slot
    ensures Flows(Post(c, slot, job))
  {
    MessagesOne(c.queue, job);
    assert Messages(c.ran) + (Messages(c.queue) + [job]) == (Messages(c.ran) + Messages(c.queue)) + [job];
  }

  lemma CancelFlows(c: Chan)
    requires Flows(c)
    ensures Flows(Cancel(c))
  {
    if c.wait.Some? {
      MessagesOne(c.queue, Timer(c.wait.value.slot, c.wait.value.msg, true));
      assert Messages(c.queue) + [] == Messages(c.queue);
    }
  }

  lemma BeginFlows(task: Task, c: Chan)
    requires Flows(c)
    ensures Flows(Step(task, c, Begin))
  {
    if c.current.None? && c.queue != [] {
      var job := c.queue[0];
      MessagesFirst(c.queue);
      MessagesOne(c.ran, job);
      assert job.slot < c.slots;
      assert forall i :: 0 <= i < |c.queue[1..]| ==> c.queue[1..][i] == c.queue[i + 1];
      var m := if job.Call? || job.Chain? then [job] else [];
      assert Messages(c.ran) + (m + Messages(c.queue[1..])) == (Messages(c.ran) + m) + Messages(c.queue[1..]);
      assert Messages(c.ran) + [] == Messages(c.ran);
    }
  }

  lemma StepFlows(task: Task, c: Chan, a: Action)
    requires Flows(c) && a != Stop
    ensures Flows(Step(task, c, a))
  {
    match a
    case Dispatch(slot, msg) => PostFlows(c, slot, Call(slot, msg));
    case Next(producer, consumer, msg) =>
      var slot := SlotOf(c.names, producer);
      PostFlows(c, slot, Chain(slot, msg, consumer));
    case SetName(_, _) =>
    case Suspend(slot, msg) => CancelFlows(c);
    case CancelTimer => CancelFlows(c);
    case Expire =>
      if c.wait.Some? {
        MessagesOne(c.queue, c.wait.value);
        assert Messages(c.queue) + [] == Messages(c.queue);
      }
    case Begin => BeginFlows(task, c);
    case End =>
      if c.current.Some? && c.current.value.Chain? {
        var job, d := c.current.value, c.(current := None);
        var slot := SlotOf(c.names, job.consumer);
        PostFlows(d, slot, Call(slot, task(job.slot, job.msg)));
      }
  }

  /** After the stop that left `ran` and `accepted`: nothing more is accepted, the stop
      handler is queued or has run once, and no other handler has called the task. */
  predicate Closed(c: Chan, ran: seq<Job>, accepted: seq<Job>) {
    && !c.open && c.wait.None? && c.accepted == accepted
    && ((c.ran == ran && Once(c.queue)) || (c.ran == ran + [StopTask] && StopTask !in c.queue))
  }

  predicate Once(queue: seq<Job>) {
    exists i :: 0 <= i < |queue| && queue[i] == StopTask && StopTask !in queue[..i] && StopTask !in queue[i + 1..]
  }

  lemma StopCloses(task: Task, c: Chan)
    requires Flows(c)
    ensures Closed(Step(task, c, Stop), c.ran, c.accepted)
  {
    var c' := Step(task, c, Stop);
    var i := |c'.queue| - 1;
    assert c'.queue[i] == StopTask && c'.queue[i + 1..] == [];
    assert StopTask !in c'.queue[..i] by {
      assert c'.queue[..i] == Cancel(c.(open := false)).queue;
    }
  }

  lemma StepClosed(task: Task, c: Chan, a: Action, ran: seq<Job>, accepted: seq<Job>)
    requires Armed(c) && Closed(c, ran, accepted)
    ensures Closed(Step(task, c, a), ran, accepted)
  {
  }

  /** The channel's promise while it is open: the messages that have run are a prefix of
      those accepted, in posting order, and nothing accepted is lost. */
  lemma {:induction false} OpenRuns(task: Task, states: seq<Chan>, actions: seq<Action>, n: nat)
    requires Run(task, states, actions) && n <= |actions| && states[0] == Fresh(states[0].slots)
    requires forall i :: 0 <= i < n ==> actions[i] != Stop
    ensures Flows(states[n]) && Messages(states[n].ran) <= states[n].accepted
    ensures states[n].queue == [] ==> Messages(states[n].ran) == states[n].accepted
    decreases n
  {
    if n > 0 {
      OpenRuns(task, states, actions, n - 1);
      StepFlows(task, states[n - 1], actions[n - 1]);
    } else {
      assert Messages([]) == [];
    }
    if states[n].queue == [] {
      assert Messages(states[n].ran) + [] == Messages(states[n].ran);
    }
  }

  /** The channel's promise once `stop` was called, at step k, in any interleaving: no
      handler, timers included, calls the task any more except the stop handler, which does
      so exactly once; what ran before is a prefix of what was accepted; what is lost is
      exactly what was still queued. */
  lemma {:induction false} StoppedRuns(task: Task, states: seq<Chan>, actions: seq<Action>, k: nat, n: nat)
    requires Run(task, states, actions) && k < n <= |actions| && states[0] == Fresh(states[0].slots)
    requires actions[k] == Stop && forall i :: 0 <= i < k ==> actions[i] != Stop
    ensures Closed(states[n], states[k].ran, states[k].accepted)
    ensures states[n].queue == [] ==> states[n].ran == states[k].ran + [StopTask]
    ensures Messages(states[n].ran) == Messages(states[k].ran) <= states[n].accepted
    ensures states[n].accepted == Messages(states[n].ran) + Messages(states[k].queue)
    decreases n
  {
    OpenRuns(task, states, actions, k);
    if n == k + 1 {
      StopCloses(task, states[k]);
    } else {
      StoppedRuns(task, states, actions, k, n - 1);
      StepClosed(task, states[n - 1], actions[n - 1], states[k].ran, states[k].accepted);
    }
    MessagesOne(states[k].ran, StopTask);
    assert Messages(states[k].ran) + [] == Messages(states[k].ran);
  }

  /** A second stop does nothing. */
  lemma StopTwice(task: Task, c: Chan)
    requires Armed(c)
    ensures Step(task, Step(task, c, Stop), Stop) == Step(task, c, Stop)
  {
  }

  /** Handlers queued before the stop handler are all dropped: from any closed state, taking
      every queued handler in turn calls the task once, for the stop. */
  lemma {:induction false} DrainStops(task: Task, c: Chan, ran: seq<Job>, accepted: seq<Job>)
    returns (end: Chan)
    requires Armed(c) && Closed(c, ran, accepted) && c.current.None?
    ensures Drains(task, c, end, |c.queue|)
    ensures end.queue == [] && end.ran == ran + [StopTask]
    decreases |c.queue|
  {
    if c.queue == [] {
      end := c;
    } else {
      var next := Step(task, Step(task, c, Begin), End);
      StepClosed(task, c, Begin, ran, accepted);
      StepClosed(task, Step(task, c, Begin), End, ran, accepted);
      end := DrainStops(task, next, ran, accepted);
    }
  }

  predicate Drains(task: Task, c: Chan, end: Chan, n: nat)
    decreases n
  {
    if n == 0 then c == end
    else Armed(c) && c.queue != [] && Drains(task, Step(task, Step(task, c, Begin), End), end, n - 1)
  }
}
