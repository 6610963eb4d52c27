/** What a channel accepts, arms and runs, said without the functions that model it. */
module ChannelLaws {
  import opened Dom
  import opened Schema
  import opened ChannelModel

  // ---- single actions ---------------------------------------------------

  /** dispatch takes a message for every slot of an open channel, the last one included, and no other. */
  lemma DispatchLaw(task: Task, c: Chan, slot: nat, msg: Msg)
    requires Armed(c)
    ensures Step(task, c, Dispatch(slot, msg)) ==
      if c.open && slot < c.slots
      then c.(queue := c.queue + [Call(slot, msg)], accepted := c.accepted + [Call(slot, msg)])
      else c
  {
  }

  /** next takes a message for every producer whose name leads to a slot of an open channel. */
  lemma NextLaw(task: Task, c: Chan, producer: string, consumer: string, msg: Msg)
    requires Armed(c) && c.slots <= NPOS
    ensures Step(task, c, Next(producer, consumer, msg)) ==
      if c.open && producer in c.names && c.names[producer] < c.slots
      then var job := Chain(c.names[producer], msg, consumer);
        c.(queue := c.queue + [job], accepted := c.accepted + [job])
      else c
  {
  }

  /** A producer that returns passes its result, not its input, to the slot that has the
      consumer's name; any other slot function just returns. */
  lemma EndLaw(task: Task, c: Chan)
    requires Armed(c) && c.slots <= NPOS
    ensures Step(task, c, End) ==
      if c.current.Some? && c.current.value.Chain? && c.open
        && c.current.value.consumer in c.names && c.names[c.current.value.consumer] < c.slots
      then
        var p := c.current.value;
        var job := Call(c.names[p.consumer], task(p.slot, p.msg));
        c.(current := None, queue := c.queue + [job], accepted := c.accepted + [job])
      else c.(current := None)
  {
  }

  /** The strand takes the first handler when nothing is executing. A message or an expired timer
      calls its slot if the channel is open, a cancelled timer does not, and the stop handler always does. */
  lemma BeginLaw(task: Task, c: Chan)
    requires Armed(c)
    ensures c.current.Some? || c.queue == [] ==> Step(task, c, Begin) == c
    ensures c.current.None? && c.queue != [] ==>
      var job, c' := c.queue[0], Step(task, c, Begin);
      var calls := match job
        case StopTask => true
        case Timer(slot, _, aborted) => !aborted && c.open && slot < c.slots
        case Call(slot, _) => c.open && slot < c.slots
        case Chain(slot, _, _) => c.open && slot < c.slots;
      c' == c.(queue := c.queue[1..], current := if calls then Some(job) else None,
               ran := if calls then c.ran + [job] else c.ran)
  {
  }

  /** suspend arms the timer on an open channel and cancels the one that was armed. */
  lemma SuspendLaw(task: Task, c: Chan, slot: nat, msg: Msg)
    requires Armed(c)
    ensures Step(task, c, Suspend(slot, msg)) ==
      if c.open && slot < c.slots
      then c.(wait := Some(Timer(slot, msg, false)),
              queue := c.queue + if c.wait.None? then [] else [c.wait.value.(aborted := true)])
      else c
  {
    assert c.queue + [] == c.queue;
  }

  /** Cancelling posts the armed handler as cancelled, expiring posts it as it is. */
  lemma TimerLaw(task: Task, c: Chan)
    requires Armed(c)
    ensures Step(task, c, CancelTimer) ==
      if c.wait.None? then c else c.(wait := None, queue := c.queue + [c.wait.value.(aborted := true)])
    ensures Step(task, c, Expire) ==
      if c.wait.None? then c else c.(wait := None, queue := c.queue + [c.wait.value])
  {
  }

  /** stop closes an open channel, cancels its timer and posts the stop handler last. */
  lemma StopLaw(task: Task, c: Chan)
    requires Armed(c)
    ensures Step(task, c, Stop) ==
      if !c.open then c
      else c.(open := false, wait := None,
              queue := c.queue + (if c.wait.None? then [] else [c.wait.value.(aborted := true)]) + [StopTask])
  {
    assert c.queue + [] == c.queue;
  }

  /** A name keeps the slot it was given first. */
  lemma SetNameLaw(task: Task, c: Chan, name: string, slot: nat)
    requires Armed(c)
    ensures Step(task, c, SetName(name, slot)) ==
      if name in c.names then c else c.(names := c.names[name := slot])
  {
  }

  // ---- runs: what is accepted -------------------------------------------

  /** What an action makes an open channel accept: a dispatched message with an existing slot, one
      for a known producer, or a producer's result for a known consumer. */
  function TakenBy(task: Task, c: Chan, a: Action): seq<Job> {
    if !c.open then []
    else if a.Dispatch? && a.slot < c.slots then [Call(a.slot, a.msg)]
    else if a.Next? && a.producer in c.names && c.names[a.producer] < c.slots then
      [Chain(c.names[a.producer], a.msg, a.consumer)]
    else if a.End? && c.current.Some? && c.current.value.Chain?
      && c.current.value.consumer in c.names && c.names[c.current.value.consumer] < c.slots then
      [Call(c.names[c.current.value.consumer], task(c.current.value.slot, c.current.value.msg))]
    else []
  }

  function TakenAll(task: Task, states: seq<Chan>, actions: seq<Action>, n: nat): seq<Job>
    requires n <= |actions| < |states|
  {
    if n == 0 then [] else TakenAll(task, states, actions, n - 1) + TakenBy(task, states[n - 1], actions[n - 1])
  }

  /** In every run, stopped or not, exactly these messages are accepted, in the order of the calls. */
  lemma {:induction false} AcceptedExactly(task: Task, states: seq<Chan>, actions: seq<Action>, n: nat)
    requires Run(task, states, actions) && n <= |actions| && states[0] == Fresh(states[0].slots)
    requires states[0].slots <= NPOS
    ensures states[n].accepted == TakenAll(task, states, actions, n) && states[n].slots == states[0].slots
    decreases n
  {
    if n > 0 {
      AcceptedExactly(task, states, actions, n - 1);
      StepAccepts(task, states[n - 1], actions[n - 1]);
    }
  }

  lemma StepAccepts(task: Task, c: Chan, a: Action)
    requires Armed(c) && c.slots <= NPOS
    ensures Step(task, c, a).accepted == c.accepted + TakenBy(task, c, a)
  {
    match a
    case Dispatch(slot, msg) => DispatchLaw(task, c, slot, msg);
    case Next(producer, consumer, msg) => NextLaw(task, c, producer, consumer, msg);
    case End => EndLaw(task, c);
    case Begin => BeginLaw(task, c);
    case _ =>
  }

  // ---- runs: what is armed and what comes due ----------------------------

  /** The timer that is armed, by the actions since the start. */
  function WaitOf(states: seq<Chan>, actions: seq<Action>, n: nat): Option<Job>
    requires n <= |actions| < |states|
  {
    if n == 0 then None
    else
      var c, a := states[n - 1], actions[n - 1];
      if a.Suspend? && c.open && a.slot < c.slots then Some(Timer(a.slot, a.msg, false))
      else if a.CancelTimer? || a.Expire? || a.Stop? then None
      else WaitOf(states, actions, n - 1)
  }

  /** In every run the armed timer is the one of the last suspend, unless it was cancelled, has
      expired, or the channel was stopped. */
  lemma {:induction false} WaitExactly(task: Task, states: seq<Chan>, actions: seq<Action>, n: nat)
    requires Run(task, states, actions) && n <= |actions| && states[0] == Fresh(states[0].slots)
    ensures states[n].wait == WaitOf(states, actions, n) && (!states[n].open ==> states[n].wait == None)
    ensures Live(states[n])
    decreases n
  {
    if n > 0 {
      WaitExactly(task, states, actions, n - 1);
      StepWaits(task, states[n - 1], actions[n - 1]);
    }
  }

  /** What is armed has not been cancelled. */
  predicate Live(c: Chan) { c.wait.Some? ==> c.wait.value.Timer? && !c.wait.value.aborted }

  lemma StepWaits(task: Task, c: Chan, a: Action)
    requires Live(c) && (!c.open ==> c.wait == None)
    ensures var c' := Step(task, c, a);
      && c'.wait == (if a.Suspend? && c.open && a.slot < c.slots then Some(Timer(a.slot, a.msg, false))
                     else if a.CancelTimer? || a.Expire? || a.Stop? then None else c.wait)
      && (!c'.open ==> c'.wait == None)
  {
    match a
    case Suspend(slot, msg) => SuspendLaw(task, c, slot, msg);
    case Stop => StopLaw(task, c);
    case _ =>
  }

  // ---- runs: everything runs --------------------------------------------

  /** The handlers that call the task when they come to the front of an open channel. */
  function Effective(jobs: seq<Job>): seq<Job> {
    if jobs == [] then []
    else (if jobs[0].Timer? && jobs[0].aborted then [] else [jobs[0]]) + Effective(jobs[1..])
  }

  lemma {:induction false} EffectiveSnoc(jobs: seq<Job>, job: Job)
    ensures Effective(jobs + [job]) == Effective(jobs) + if job.Timer? && job.aborted then [] else [job]
    decreases |jobs|
  {
    if jobs == [] {
      assert jobs + [job] == [job] && [job][1..] == [];
    } else {
      assert (jobs + [job])[0] == jobs[0] && (jobs + [job])[1..] == jobs[1..] + [job];
      EffectiveSnoc(jobs[1..], job);
      var first := if jobs[0].Timer? && jobs[0].aborted then [] else [jobs[0]];
      var last := if job.Timer? && job.aborted then [] else [job];
      assert first + (Effective(jobs[1..]) + last) == (first + Effective(jobs[1..])) + last;
    }
  }

  /** What an action of an open channel makes due: what is accepted, and a timer that expires. */
  function DueBy(task: Task, c: Chan, a: Action): seq<Job> {
    if a.Expire? && c.wait.Some? then [c.wait.value] else TakenBy(task, c, a)
  }

  function DueAll(task: Task, states: seq<Chan>, actions: seq<Action>, n: nat): seq<Job>
    requires n <= |actions| < |states|
  {
    if n == 0 then [] else DueAll(task, states, actions, n - 1) + DueBy(task, states[n - 1], actions[n - 1])
  }

  lemma StepEffective(task: Task, c: Chan, a: Action)
    requires Flows(c) && Live(c) && a != Stop && c.slots <= NPOS
    ensures var c' := Step(task, c, a);
      c'.ran + Effective(c'.queue) == (c.ran + Effective(c.queue)) + DueBy(task, c, a)
  {
    match a
    case Dispatch(_, _) => AcceptEffective(task, c, a);
    case Next(_, _, _) => AcceptEffective(task, c, a);
    case End => AcceptEffective(task, c, a);
    case SetName(_, _) => AcceptEffective(task, c, a);
    case Begin => BeginEffective(task, c);
    case _ => TimerEffective(task, c, a);
  }

  lemma AcceptEffective(task: Task, c: Chan, a: Action)
    requires Armed(c) && c.slots <= NPOS && (a.Dispatch? || a.Next? || a.End? || a.SetName?)
    ensures var c' := Step(task, c, a);
      c'.ran + Effective(c'.queue) == (c.ran + Effective(c.queue)) + TakenBy(task, c, a)
  {
    match a {
      case Dispatch(slot, msg) => DispatchLaw(task, c, slot, msg);
      case Next(producer, consumer, msg) => NextLaw(task, c, producer, consumer, msg);
      case End => EndLaw(task, c);
      case SetName(_, _) =>
    }
    QueueMore(c, Step(task, c, a), TakenBy(task, c, a));
  }

  lemma TimerEffective(task: Task, c: Chan, a: Action)
    requires Live(c) && (a.Suspend? || a.CancelTimer? || a.Expire?)
    ensures var c' := Step(task, c, a);
      c'.ran + Effective(c'.queue) == (c.ran + Effective(c.queue)) + DueBy(task, c, a)
  {
    match a
    case Suspend(slot, msg) =>
      SuspendLaw(task, c, slot, msg);
      CancelledMore(c, Step(task, c, a));
    case CancelTimer =>
      TimerLaw(task, c);
      CancelledMore(c, Step(task, c, a));
    case Expire =>
      TimerLaw(task, c);
      QueueMore(c, Step(task, c, a), if c.wait.None? then [] else [c.wait.value]);
  }

  /** One more effective handler in the queue, or none. */
  lemma QueueMore(c: Chan, c': Chan, more: seq<Job>)
    requires c'.ran == c.ran && |more| <= 1 && c'.queue == if more == [] then c.queue else c.queue + more
    requires more != [] ==> !(more[0].Timer? && more[0].aborted)
    ensures c'.ran + Effective(c'.queue) == (c.ran + Effective(c.queue)) + more
  {
    if more != [] {
      assert more == [more[0]];
      EffectiveSnoc(c.queue, more[0]);
    }
  }

  /** A cancelled timer in the queue makes no difference. */
  lemma CancelledMore(c: Chan, c': Chan)
    requires c'.ran == c.ran
    requires c'.queue == c.queue || (c'.queue != [] && c'.queue[..|c'.queue| - 1] == c.queue
      && c'.queue[|c'.queue| - 1].Timer? && c'.queue[|c'.queue| - 1].aborted)
    ensures c'.ran + Effective(c'.queue) == (c.ran + Effective(c.queue)) + []
  {
    if c'.queue != c.queue {
      var job := c'.queue[|c'.queue| - 1];
      assert c'.queue == c.queue + [job];
      EffectiveSnoc(c.queue, job);
    }
  }

  lemma BeginEffective(task: Task, c: Chan)
    requires Flows(c)
    ensures var c' := Step(task, c, Begin); c'.ran + Effective(c'.queue) == (c.ran + Effective(c.queue)) + []
  {
    BeginLaw(task, c);
    if c.current.None? && c.queue != [] {
      var job := c.queue[0];
      assert job.slot < c.slots;
      var first := if job.Timer? && job.aborted then [] else [job];
      assert c.ran + (first + Effective(c.queue[1..])) == (c.ran + first) + Effective(c.queue[1..]);
    }
  }

  lemma {:induction false} SlotsStay(task: Task, states: seq<Chan>, actions: seq<Action>, n: nat)
    requires Run(task, states, actions) && n <= |actions|
    ensures states[n].slots == states[0].slots
    decreases n
  {
    if n > 0 { SlotsStay(task, states, actions, n - 1); }
  }

  lemma OpenFacts(task: Task, states: seq<Chan>, actions: seq<Action>, n: nat)
    requires Run(task, states, actions) && n <= |actions| && states[0] == Fresh(states[0].slots)
    requires states[0].slots <= NPOS && forall i :: 0 <= i < n ==> actions[i] != Stop
    ensures Flows(states[n]) && Live(states[n]) && states[n].slots <= NPOS
  {
    OpenRuns(task, states, actions, n);
    SlotsStay(task, states, actions, n);
    WaitExactly(task, states, actions, n);
  }

  lemma {:induction false} DueRuns(task: Task, states: seq<Chan>, actions: seq<Action>, n: nat)
    requires Run(task, states, actions) && n <= |actions| && states[0] == Fresh(states[0].slots)
    requires states[0].slots <= NPOS && forall i :: 0 <= i < n ==> actions[i] != Stop
    ensures states[n].ran + Effective(states[n].queue) == DueAll(task, states, actions, n)
    decreases n
  {
    if n > 0 {
      DueRuns(task, states, actions, n - 1);
      OpenFacts(task, states, actions, n - 1);
      StepEffective(task, states[n - 1], actions[n - 1]);
    }
  }

  /** While the channel is open, everything that came due, messages and expired timers alike, has
      called its slot or waits to do so, in the order in which it came due; cancelled timers never call. */
  lemma EverythingRuns(task: Task, states: seq<Chan>, actions: seq<Action>, n: nat)
    requires Run(task, states, actions) && n <= |actions| && states[0] == Fresh(states[0].slots)
    requires states[0].slots <= NPOS && forall i :: 0 <= i < n ==> actions[i] != Stop
    ensures states[n].ran + Effective(states[n].queue) == DueAll(task, states, actions, n)
    ensures states[n].queue == [] ==> states[n].ran == DueAll(task, states, actions, n)
  {
    DueRuns(task, states, actions, n);
    assert states[n].ran + [] == states[n].ran;
  }
}
