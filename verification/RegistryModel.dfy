/** The registry of channels: ids are handed out once, entries come and go through posted
    handlers, and the entries are weak. */
module RegistryModel {
  import opened Dom

  datatype Job = Insert(id: nat) | Remove(id: nat)

  /** `open` and `held` are the channels whose task is set, and those somebody other than a
      pending insert still owns. `list` maps a key to the channel entered under it. `stopped`
      lists the channels closed so far; `missed` are those that were closed before their insert ran. */
  datatype Reg = Reg(last: nat, open: set<nat>, held: set<nat>, queue: seq<Job>, list: map<nat, nat>,
                     shutdown: bool, stopped: seq<nat>, missed: set<nat>)

  datatype Action =
    | Create
    | Stop(id: nat)
    | Release(id: nat)  // the last owner lets go
    | RunNext           // the registry's strand runs its next handler
    | Shutdown
    | Reset

  predicate Alive(r: Reg, id: nat) { id in r.held || Insert(id) in r.queue }

  function Post(r: Reg, job: Job): Reg { if r.shutdown then r else r.(queue := r.queue + [job]) }

  function Close(r: Reg, id: nat): Reg {
    if id in r.open then r.(open := r.open - {id}, stopped := r.stopped + [id]) else r
  }

  /** Stops every live channel with an entry, from key `n` down. */
  function StopDown(r: Reg, n: nat): Reg
    decreases n
  {
    var r' := if n in r.list && Alive(r, r.list[n]) then Close(r, r.list[n]) else r;
    if n == 0 then r' else StopDown(r', n - 1)
  }

  function RunJob(r: Reg, job: Job): Reg {
    match job
    case Insert(id) =>
      // a closed channel has id 0; emplace keeps an entry already there
      var key := if id in r.open then id else 0;
      var r' := r.(list := if key in r.list then r.list else r.list[key := id],
                   missed := if id in r.open then r.missed else r.missed + {id});
      // the handler was the last owner
      if Alive(r', id) then r' else Post(r', Remove(id))
    case Remove(id) => r.(list := r.list - {id})
  }

  function Step(r: Reg, a: Action): Reg {
    match a
    case Create =>
      var id := r.last + 1;
      Post(r.(last := id, open := r.open + {id}, held := r.held + {id}), Insert(id))
    case Stop(id) => if id in r.held then Close(r, id) else r
    case Release(id) =>
      if id !in r.held then r
      else
        var r' := r.(held := r.held - {id});
        if Alive(r', id) then r' else Post(r', Remove(id))
    case RunNext => if r.queue == [] then r else RunJob(r.(queue := r.queue[1..]), r.queue[0])
    case Shutdown => if r.shutdown then r else StopDown(r.(shutdown := true), r.last).(list := map[])
    case Reset => r.(shutdown := false)
  }

  const START: Reg := Reg(0, {}, {}, [], map[], false, [], {})

  // ---- until shutdown ---------------------------------------------------

  predicate Known(r: Reg, id: nat) { 1 <= id <= r.last }

  predicate Distinct(queue: seq<Job>) { forall i, j :: 0 <= i < j < |queue| ==> queue[i] != queue[j] }

  /** Whatever happened: ids are positive and never above the last one handed out. */
  predicate Sane(r: Reg) {
    && (forall id :: id in r.held ==> Known(r, id))
    && (forall id :: id in r.open ==> Known(r, id))
    && (forall i :: 0 <= i < |r.queue| ==> Known(r, r.queue[i].id))
    && (forall k :: k in r.list ==> k <= r.last && Known(r, r.list[k]) && (k > 0 ==> r.list[k] == k))
  }

  /** Every channel is on its way in, entered under its own id, on its way out, or has missed its entry. */
  ghost predicate Exact(r: Reg) {
    && Distinct(r.queue)
    && (forall id :: Insert(id) in r.queue ==> id !in r.list && id !in r.missed && Remove(id) !in r.queue)
    && (forall id :: id in r.held && Insert(id) !in r.queue && id !in r.missed ==> id in r.list)
    && (forall id :: Remove(id) in r.queue ==> id !in r.held && (id in r.list || id in r.missed))
    && (forall id :: id in r.list && id > 0 && Remove(id) !in r.queue ==> id in r.held)
  }

  /** A missed entry is closed and has no entry of its own; the first one stays under 0. */
  predicate Apart(r: Reg) {
    && (forall id :: id in r.missed ==> Known(r, id) && id !in r.open && id !in r.list)
    && (0 in r.list <==> r.missed != {})
    && (0 in r.list ==> r.list[0] in r.missed)
  }

  /** What holds in every state before shutdown. */
  ghost predicate Ok(r: Reg) { !r.shutdown && Sane(r) && Apart(r) && Exact(r) }

  /** Whether the action stops a channel whose insert has not run yet. */
  predicate TooEarly(r: Reg, a: Action) { a.Stop? && a.id in r.held && a.id in r.open && Insert(a.id) in r.queue }

  /** Any action, shutdown and reset included. */
  lemma StepSane(r: Reg, a: Action)
    requires Sane(r)
    ensures Sane(Step(r, a)) && (!a.Shutdown? && !a.Reset? ==> Step(r, a).shutdown == r.shutdown)
  {
    match a
    case RunNext => RunSane(r);
    case Shutdown =>
      StopDownLast(r.(shutdown := true), r.last);
      StopDownOpen(r.(shutdown := true), r.last);
    case _ =>
  }

  lemma RunSane(r: Reg)
    requires Sane(r)
    ensures Sane(Step(r, RunNext)) && Step(r, RunNext).shutdown == r.shutdown
  {
    if r.queue != [] {
      assert Known(r, r.queue[0].id);
      assert forall i :: 0 <= i < |r.queue[1..]| ==> r.queue[1..][i] == r.queue[i + 1];
    }
  }

  lemma {:induction false} StopDownOpen(r: Reg, n: nat)
    ensures StopDown(r, n).open <= r.open
    decreases n
  {
    if n > 0 {
      StopDownOpen(if n in r.list && Alive(r, r.list[n]) then Close(r, r.list[n]) else r, n - 1);
    }
  }

  lemma StepOk(r: Reg, a: Action)
    requires Ok(r) && !a.Shutdown? && !a.Reset?
    ensures Ok(Step(r, a))
  {
    StepSane(r, a);
    match a
    case Create => CreateExact(r);
    case Stop(_) =>
    case Release(id) => ReleaseExact(r, id);
    case RunNext =>
      if r.queue != [] && r.queue[0].Insert? {
        InsertExact(r);
      } else if r.queue != [] {
        RemoveExact(r);
      }
  }

  lemma CreateExact(r: Reg)
    requires Ok(r)
    ensures Exact(Step(r, Create)) && Apart(Step(r, Create))
  {
    var id := r.last + 1;
    assert forall j :: j in r.queue ==> j.id != id;
  }

  lemma ReleaseExact(r: Reg, id: nat)
    requires Ok(r)
    ensures Exact(Step(r, Release(id))) && Apart(Step(r, Release(id)))
  {
  }

  /** The first job leaves the queue, and no other is like it. */
  lemma QueueTail(r: Reg)
    requires Ok(r) && r.queue != []
    ensures forall j :: j in r.queue <==> j == r.queue[0] || j in r.queue[1..]
    ensures r.queue[0] !in r.queue[1..] && Distinct(r.queue[1..])
  {
  }

  lemma InsertExact(r: Reg)
    requires Ok(r) && r.queue != [] && r.queue[0].Insert?
    ensures Exact(Step(r, RunNext)) && Apart(Step(r, RunNext))
  {
    var id, rest := r.queue[0].id, r.queue[1..];
    QueueTail(r);
    var entered := if id in r.open then r.(queue := rest, list := r.list[id := id])
      else r.(queue := rest, list := if 0 in r.list then r.list else r.list[0 := id], missed := r.missed + {id});
    if id in r.open {
      EnteredOpen(r, id, rest);
    } else {
      EnteredClosed(r, id, rest);
    }
    assert Step(r, RunNext) == if Alive(entered, id) then entered else Post(entered, Remove(id));
    if !Alive(entered, id) {
      RemovePosted(entered, id);
    }
  }

  /** As Exact, but the channel that was just entered may have lost its last owner. */
  ghost predicate ExactBut(r: Reg, but: nat) {
    && Distinct(r.queue)
    && (forall id :: Insert(id) in r.queue ==> id !in r.list && id !in r.missed && Remove(id) !in r.queue)
    && (forall id :: id in r.held && Insert(id) !in r.queue && id !in r.missed ==> id in r.list)
    && (forall id :: Remove(id) in r.queue ==> id !in r.held && (id in r.list || id in r.missed))
    && (forall id :: id in r.list && id > 0 && id != but && Remove(id) !in r.queue ==> id in r.held)
    && (but in r.list || but in r.missed) && Insert(but) !in r.queue && Remove(but) !in r.queue
  }

  lemma EnteredOpen(r: Reg, id: nat, rest: seq<Job>)
    requires Ok(r) && r.queue == [Insert(id)] + rest && id in r.open
    requires forall j :: j in r.queue <==> j == Insert(id) || j in rest
    requires Insert(id) !in rest && Distinct(rest)
    ensures var r' := r.(queue := rest, list := r.list[id := id]); Apart(r') && ExactBut(r', id)
  {
  }

  lemma EnteredClosed(r: Reg, id: nat, rest: seq<Job>)
    requires Ok(r) && r.queue == [Insert(id)] + rest && id !in r.open
    requires forall j :: j in r.queue <==> j == Insert(id) || j in rest
    requires Insert(id) !in rest && Distinct(rest)
    ensures var list := if 0 in r.list then r.list else r.list[0 := id];
      var r' := r.(queue := rest, list := list, missed := r.missed + {id});
      Apart(r') && ExactBut(r', id)
  {
    assert Known(r, r.queue[0].id);
  }

  lemma RemovePosted(r: Reg, id: nat)
    requires !r.shutdown && Apart(r) && ExactBut(r, id) && id !in r.held
    ensures Apart(Post(r, Remove(id))) && Exact(Post(r, Remove(id)))
  {
  }

  lemma RemoveExact(r: Reg)
    requires Ok(r) && r.queue != [] && r.queue[0].Remove?
    ensures Exact(Step(r, RunNext)) && Apart(Step(r, RunNext))
  {
    QueueTail(r);
    assert Known(r, r.queue[0].id);
  }

  /** The channel has missed its entry, or is bound to: a closed channel stays closed. */
  predicate Misses(r: Reg, id: nat) { id in r.missed || (Insert(id) in r.queue && id !in r.open) }

  /** A channel comes to miss its entry exactly by being stopped too early. */
  lemma StepEarly(r: Reg, a: Action, id: nat)
    requires Ok(r) && !a.Shutdown? && !a.Reset?
    ensures Misses(Step(r, a), id) <==> Misses(r, id) || (TooEarly(r, a) && a.id == id)
  {
    if a.RunNext? && r.queue != [] {
      assert forall j :: j in r.queue <==> j == r.queue[0] || j in r.queue[1..];
    } else if a.Create? {
      assert forall j :: j in r.queue ==> j.id != r.last + 1;
    }
  }

  ghost predicate Run(states: seq<Reg>, actions: seq<Action>) {
    && |states| == |actions| + 1 && states[0] == START
    && forall i :: 0 <= i < |actions| ==> states[i + 1] == Step(states[i], actions[i])
  }

  /** The channel was stopped before its own insert had run. */
  ghost predicate StoppedEarly(states: seq<Reg>, actions: seq<Action>, n: nat, id: nat)
    requires n <= |actions| && |states| == |actions| + 1
  {
    exists i :: 0 <= i < n && TooEarly(states[i], actions[i]) && actions[i].id == id
  }

  lemma {:induction false} RunOk(states: seq<Reg>, actions: seq<Action>, n: nat)
    requires Run(states, actions) && n <= |actions|
    requires forall i :: 0 <= i < n ==> !actions[i].Shutdown? && !actions[i].Reset?
    ensures Ok(states[n])
    ensures forall id :: Misses(states[n], id) <==> StoppedEarly(states, actions, n, id)
    decreases n
  {
    if n > 0 {
      var p := n - 1;
      RunOk(states, actions, p);
      StepOk(states[p], actions[p]);
      forall id ensures Misses(states[n], id) <==> StoppedEarly(states, actions, n, id) {
        StepEarly(states[p], actions[p], id);
        assert StoppedEarly(states, actions, n, id) <==>
          StoppedEarly(states, actions, p, id) || (TooEarly(states[p], actions[p]) && actions[p].id == id);
      }
    }
  }

  /** The registry's promise. Whenever its strand is drained, every entry but the one under 0
      is a living channel under its own id, and every living channel is entered, except exactly
      those that were stopped before their own insert had run; 0 is used once there was one. */
  lemma DrainedLaw(states: seq<Reg>, actions: seq<Action>, n: nat)
    requires Run(states, actions) && n <= |actions| && states[n].queue == []
    requires forall i :: 0 <= i < n ==> !actions[i].Shutdown? && !actions[i].Reset?
    ensures states[n].list - {0} == map id | id in states[n].held && !StoppedEarly(states, actions, n, id) :: id
    ensures 0 in states[n].list <==> exists id :: StoppedEarly(states, actions, n, id)
  {
    RunOk(states, actions, n);
    var r := states[n];
    assert forall id :: id in r.missed <==> Misses(r, id);
    assert forall id :: id in r.list - {0} ==> r.list[id] == id && id in r.held;
    if 0 in r.list {
      assert Misses(r, r.list[0]);
    }
  }

  /** So the list holds exactly the living channels, each under its own id, if and only if no
      channel was stopped before its own insert had run. */
  lemma DrainedExactly(states: seq<Reg>, actions: seq<Action>, n: nat)
    requires Run(states, actions) && n <= |actions| && states[n].queue == []
    requires forall i :: 0 <= i < n ==> !actions[i].Shutdown? && !actions[i].Reset?
    ensures (forall id :: !StoppedEarly(states, actions, n, id)) <==>
      states[n].list == map id | id in states[n].held :: id
  {
    DrainedLaw(states, actions, n);
    RunOk(states, actions, n);
    var r := states[n];
    assert 0 !in r.held;
    if 0 !in r.list {
      assert r.list - {0} == r.list;
    }
  }

  /** Ids are never reused. */
  lemma {:induction false} IdsFresh(states: seq<Reg>, actions: seq<Action>, i: nat, n: nat)
    requires Run(states, actions) && i < n < |actions| && actions[i].Create? && actions[n].Create?
    ensures states[i + 1].last == states[i].last + 1 <= states[n].last < states[n + 1].last
  {
    LastGrows(states, actions, i + 1, n);
  }

  lemma {:induction false} StopDownLast(r: Reg, n: nat)
    ensures var r' := StopDown(r, n);
      r'.last == r.last && r'.held == r.held && r'.queue == r.queue && r'.list == r.list && r'.shutdown == r.shutdown
        && r'.missed == r.missed
    decreases n
  {
    if n > 0 {
      StopDownLast(if n in r.list && Alive(r, r.list[n]) then Close(r, r.list[n]) else r, n - 1);
    }
  }

  lemma {:induction false} LastGrows(states: seq<Reg>, actions: seq<Action>, i: nat, n: nat)
    requires Run(states, actions) && i <= n <= |actions|
    ensures states[i].last <= states[n].last
    decreases n - i
  {
    if i < n {
      StopDownLast(states[i].(shutdown := true), states[i].last);
      LastGrows(states, actions, i + 1, n);
    }
  }

  // ---- shutdown ---------------------------------------------------------

  /** The channels a shutdown stops: entered, alive and open; highest key first. */
  function Victims(r: Reg, n: nat): seq<nat>
    requires Sane(r)
  {
    var now := if n in r.list && Alive(r, r.list[n]) && r.list[n] in r.open then [r.list[n]] else [];
    if n == 0 then now else now + Victims(r, n - 1)
  }

  /** What is entered under 0 is a closed channel. */
  predicate ZeroClosed(r: Reg) { 0 in r.list ==> r.list[0] !in r.open }

  predicate Falling(s: seq<nat>) { forall i, j :: 0 <= i < j < |s| ==> s[i] > s[j] }

  lemma {:induction false} VictimsLaw(r: Reg, n: nat)
    requires Sane(r) && ZeroClosed(r)
    ensures Falling(Victims(r, n))
    ensures forall id :: id in Victims(r, n) <==> id <= n && id in r.list && Alive(r, id) && id in r.open
    decreases n
  {
    if n > 0 {
      VictimsLaw(r, n - 1);
      var rest := Victims(r, n - 1);
      assert forall j :: 0 <= j < |rest| ==> rest[j] in rest;
    }
  }

  function Ids(s: seq<nat>): set<nat> { set id | id in s }

  /** One step of the walk: channel n is closed, or nothing happens. */
  lemma StopStep(r: Reg, n: nat)
    requires Sane(r) && n > 0
    ensures if n in r.list && Alive(r, n) && n in r.open
      then StopDown(r, n) == StopDown(Close(r, n), n - 1) && Victims(r, n) == [n] + Victims(r, n - 1)
      else StopDown(r, n) == StopDown(r, n - 1) && Victims(r, n) == Victims(r, n - 1)
  {
  }

  lemma {:induction false} StopDownLaw(r: Reg, n: nat)
    requires Sane(r) && ZeroClosed(r)
    ensures StopDown(r, n).stopped == r.stopped + Victims(r, n)
    ensures StopDown(r, n).open == r.open - Ids(Victims(r, n))
    decreases n
  {
    if n == 0 {
      assert r.stopped + [] == r.stopped;
    } else {
      StopStep(r, n);
      var rest := Victims(r, n - 1);
      if n in r.list && Alive(r, n) && n in r.open {
        SameVictims(r, Close(r, n), n, n - 1);
        StopDownLaw(Close(r, n), n - 1);
        Regroup(r.stopped, r.open, n, rest);
      } else {
        StopDownLaw(r, n - 1);
      }
    }
  }

  lemma Regroup(stopped: seq<nat>, open: set<nat>, n: nat, rest: seq<nat>)
    ensures (stopped + [n]) + rest == stopped + ([n] + rest)
    ensures open - {n} - Ids(rest) == open - Ids([n] + rest)
  {
  }

  /** Closing channel n does not change who is stopped below it. */
  lemma {:induction false} SameVictims(r: Reg, r': Reg, n: nat, k: nat)
    requires Sane(r) && ZeroClosed(r) && k < n
    requires r' == r || r' == r.(open := r.open - {n}, stopped := r.stopped + [n])
    ensures Sane(r') && ZeroClosed(r') && Victims(r', k) == Victims(r, k)
    decreases k
  {
    if k > 0 {
      SameVictims(r, r', n, k - 1);
    }
  }

  /** shutdown stops each live channel that is entered and open once, highest id first, and
      empties the list; a live channel is left open exactly when its insert is still
      pending. A second shutdown does nothing. */
  lemma {:induction false} ShutdownLaw(r: Reg)
    requires Ok(r)
    ensures var r' := Step(r, Shutdown);
      && r'.stopped == r.stopped + Victims(r, r.last) && Falling(Victims(r, r.last))
      && (forall id :: id in Victims(r, r.last) <==> id in r.list && Alive(r, id) && id in r.open)
      && r'.list == map[] && r'.shutdown
      && (forall id :: Alive(r', id) && id in r'.open <==> Insert(id) in r.queue && id in r.open)
      && Step(r', Shutdown) == r'
  {
    var r0 := r.(shutdown := true);
    StopDownLaw(r0, r.last);
    StopDownLast(r0, r.last);
    VictimsLaw(r, r.last);
    ShutVictims(r, r.last);
  }

  lemma {:induction false} ShutVictims(r: Reg, n: nat)
    requires Sane(r)
    ensures Victims(r.(shutdown := true), n) == Victims(r, n)
    decreases n
  {
    if n > 0 {
      ShutVictims(r, n - 1);
    }
  }

  /** A channel created just before the shutdown escapes it: its insert runs afterwards and
      enters it into the emptied list, open. */
  lemma ShutdownEscapes()
    ensures var r := Step(Step(Step(START, Create), Shutdown), RunNext);
      r.shutdown && r.list == map[1 := 1] && 1 in r.open && r.stopped == []
  {
  }
}
