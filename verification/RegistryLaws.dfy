/** What single actions do to the registry and its channels, and channels created after a reset. */
module RegistryLaws {
  import opened RegistryModel

  // ---- single actions ---------------------------------------------------

  /** A channel gets the next id; it is open and owned, and its insert is posted unless shut down. */
  lemma CreateLaw(r: Reg)
    ensures var id := r.last + 1;
      Step(r, Create) == r.(last := id, open := r.open + {id}, held := r.held + {id},
                            queue := if r.shutdown then r.queue else r.queue + [Insert(id)])
  {
  }

  /** An owned channel that is open is closed, and counts as stopped once. */
  lemma StopLaw(r: Reg, id: nat)
    ensures Step(r, Stop(id)) ==
      if id in r.held && id in r.open then r.(open := r.open - {id}, stopped := r.stopped + [id]) else r
    ensures Step(Step(r, Stop(id)), Stop(id)) == Step(r, Stop(id))
  {
  }

  /** When the last owner lets go, and no insert holds the channel, its removal is posted unless shut down. */
  lemma ReleaseLaw(r: Reg, id: nat)
    ensures Step(r, Release(id)) ==
      if id !in r.held then r
      else r.(held := r.held - {id},
              queue := if Insert(id) in r.queue || r.shutdown then r.queue else r.queue + [Remove(id)])
  {
  }

  /** reset lifts the shutdown and nothing else. */
  lemma ResetLaw(r: Reg)
    ensures Step(r, Reset) == r.(shutdown := false)
  {
  }

  // ---- after a reset ----------------------------------------------------

  /** Any run, shutdowns and resets included. */
  lemma {:induction false} AlwaysSane(states: seq<Reg>, actions: seq<Action>, n: nat)
    requires Run(states, actions) && n <= |actions|
    ensures Sane(states[n])
    decreases n
  {
    if n > 0 {
      AlwaysSane(states, actions, n - 1);
      StepSane(states[n - 1], actions[n - 1]);
    }
  }

  /** An open, owned channel on its way in, or entered under its own id. */
  predicate Entering(r: Reg, id: nat) {
    && Sane(r) && 0 < id && id in r.open && id in r.held && Remove(id) !in r.queue
    && (Insert(id) in r.queue || id in r.list)
  }

  lemma EnteringStep(r: Reg, a: Action, id: nat)
    requires Entering(r, id) && a != Stop(id) && a != Release(id) && !a.Shutdown?
    ensures Entering(Step(r, a), id)
  {
    StepSane(r, a);
    if a.RunNext? && r.queue != [] {
      assert forall j :: j in r.queue <==> j == r.queue[0] || j in r.queue[1..];
    }
  }

  /** A channel created while the registry is not shut down, on whatever it came through before,
      stays on its way in or entered for as long as nobody stops or releases it. */
  lemma {:induction false} CreatedStays(states: seq<Reg>, actions: seq<Action>, at: nat, n: nat)
    requires Run(states, actions) && at < n <= |actions| && actions[at].Create? && !states[at].shutdown
    requires forall i :: at < i < n ==>
      actions[i] != Stop(states[at].last + 1) && actions[i] != Release(states[at].last + 1) && !actions[i].Shutdown?
    ensures Entering(states[n], states[at].last + 1)
    decreases n
  {
    var r, id := states[n - 1], states[at].last + 1;
    if n == at + 1 {
      AlwaysSane(states, actions, at);
      StepSane(r, Create);
      CreateLaw(r);
      assert forall j :: j in r.queue ==> j.id != id;
    } else {
      CreatedStays(states, actions, at, n - 1);
      EnteringStep(r, actions[n - 1], id);
    }
  }

  /** After a shutdown and a reset the registry works again: a channel created then is entered
      under its own id once the strand is drained. */
  lemma EnteredAfterReset(states: seq<Reg>, actions: seq<Action>, at: nat, n: nat)
    requires Run(states, actions) && at + 1 < n <= |actions|
    requires actions[at].Reset? && actions[at + 1].Create? && states[n].queue == []
    requires forall i :: at + 1 < i < n ==>
      actions[i] != Stop(states[at].last + 1) && actions[i] != Release(states[at].last + 1) && !actions[i].Shutdown?
    ensures var id := states[at].last + 1; id in states[n].list && states[n].list[id] == id && id in states[n].open
  {
    ResetLaw(states[at]);
    assert states[at + 1] == Step(states[at], Reset);
    CreatedStays(states, actions, at + 1, n);
  }
}
