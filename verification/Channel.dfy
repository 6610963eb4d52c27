/** The channel as an object, and the table of slot names it carries. */
module Channel {
  import opened Dom
  import opened Schema
  import opened ChannelModel

  // ---- slot names -------------------------------------------------------

  /** Names are numbered from `from` on, whether or not they were new. */
  function NamedAll(names: map<string, nat>, il: seq<string>, from: nat): map<string, nat>
    decreases |il|
  {
    if il == [] then names else NamedAll(Named(names, il[0], from), il[1..], from + 1)
  }

  /** A name maps to the slot it had, or else to the place of its first occurrence in the list. */
  lemma {:induction false} NamedAllLaw(names: map<string, nat>, il: seq<string>, from: nat, name: string)
    ensures name in NamedAll(names, il, from) <==> name in names || name in il
    ensures name in names ==> NamedAll(names, il, from)[name] == names[name]
    ensures forall i :: 0 <= i < |il| && il[i] == name && name !in il[..i] && name !in names ==>
      NamedAll(names, il, from)[name] == from + i
    decreases |il|
  {
    if il != [] {
      NamedAllLaw(Named(names, il[0], from), il[1..], from + 1, name);
      forall i | 0 <= i < |il| && il[i] == name && name !in il[..i] && name !in names
        ensures NamedAll(names, il, from)[name] == from + i
      {
        if i > 0 {
          assert il[0] == il[..i][0];
          assert il[1..][i - 1] == name;
          assert forall x :: x in il[1..][..i - 1] ==> x in il[..i];
        }
      }
    }
  }

  /** After a list of names was set on an empty table, looking a name up gives the place where it
      first occurs in the list, and no slot exactly for the names that do not occur. */
  lemma NamesFound(il: seq<string>, name: string)
    requires |il| <= NPOS
    ensures var slot := SlotOf(NamedAll(map[], il, 0), name);
      if name in il then slot < |il| && il[slot] == name && name !in il[..slot] else slot == NPOS
  {
    NamedAllLaw(map[], il, 0, name);
    if name in il {
      var i := FirstPlace(il, name);
      assert NamedAll(map[], il, 0)[name] == 0 + i;
    }
  }

  lemma {:induction false} FirstPlace(il: seq<string>, name: string) returns (i: nat)
    requires name in il
    ensures i < |il| && il[i] == name && name !in il[..i]
    decreases |il|
  {
    if il[0] == name {
      i := 0;
    } else {
      var p := FirstPlace(il[1..], name);
      i := p + 1;
      assert forall j :: 0 < j < i ==> il[j] == il[1..][..p][j - 1];
    }
  }

  class Channel {
    const task: Task
    const slots: nat
    /** The task pointer is set. */
    var open: bool
    var queue: seq<Job>
    var current: Option<Job>
    var wait: Option<Job>
    var names: map<string, nat>
    ghost var accepted: seq<Job>
    ghost var ran: seq<Job>

    constructor (task: Task, slots: nat)
      requires slots <= NPOS
      ensures Valid() && this.task == task && State() == Fresh(slots)
    {
      this.task, this.slots := task, slots;
      open, queue, current, wait, names := true, [], None, None, map[];
      accepted, ran := [], [];
    }

    ghost function State(): Chan
      reads this
    {
      Chan(open, slots, names, queue, current, wait, accepted, ran)
    }

    ghost predicate Valid()
      reads this
    {
      Armed(State()) && slots <= NPOS
    }

    /** This state is the given one after the action. */
    ghost predicate Did(was: Chan, a: Action)
      reads this
    {
      Armed(was) && State() == Step(task, was, a)
    }

    method IsOpen(slot: nat) returns (r: bool)
      ensures r == ChannelModel.IsOpen(State(), slot)
    {
      r := open && slot < slots;
    }

    method Dispatch(slot: nat, msg: Msg)
      requires Valid()
      modifies this
      ensures Valid() && Did(old(State()), Action.Dispatch(slot, msg))
    {
      var ok := IsOpen(slot);
      if ok {
        queue := queue + [Call(slot, msg)];
        accepted := accepted + [Call(slot, msg)];
      }
    }

    /** An unknown name gives a slot that is out of range, so the message is not accepted. */
    method DispatchNamed(name: string, msg: Msg)
      requires Valid()
      modifies this
      ensures Valid() && Did(old(State()), Action.Dispatch(SlotOf(old(names), name), msg))
      ensures name !in old(names) ==> State() == old(State())
    {
      var slot := Lookup(name);
      Dispatch(slot, msg);
    }

    /** The producer's name is looked up now, the consumer's when the result is there. */
    method Next(producer: string, consumer: string, msg: Msg)
      requires Valid()
      modifies this
      ensures Valid() && Did(old(State()), Action.Next(producer, consumer, msg))
      ensures producer !in old(names) ==> State() == old(State())
    {
      var slot := Lookup(producer);
      var ok := IsOpen(slot);
      if ok {
        queue := queue + [Chain(slot, msg, consumer)];
        accepted := accepted + [Chain(slot, msg, consumer)];
      }
    }

    /** Re-arming the timer cancels a wait that is still pending. */
    method Suspend(slot: nat, msg: Msg) returns (armed: bool)
      requires Valid()
      modifies this
      ensures Valid() && Did(old(State()), Action.Suspend(slot, msg))
      ensures armed == ChannelModel.IsOpen(old(State()), slot)
    {
      armed := IsOpen(slot);
      if armed {
        var active := CancelTimer();
        wait := Some(Timer(slot, msg, false));
      }
    }

    method CancelTimer() returns (active: bool)
      requires Valid()
      modifies this`wait, this`queue
      ensures Valid() && Did(old(State()), Action.CancelTimer) && active == old(wait).Some?
    {
      active := wait.Some?;
      if active {
        queue := queue + [Timer(wait.value.slot, wait.value.msg, true)];
        wait := None;
      }
    }

    /** Releases the task, cancels the timer and posts the stop handler; false if already closed. */
    method Stop() returns (stopped: bool)
      requires Valid()
      modifies this
      ensures Valid() && Did(old(State()), Action.Stop) && stopped == old(open) && !open
    {
      if !open { return false; }
      open := false;
      var active := CancelTimer();
      queue := queue + [StopTask];
      return true;
    }

    method Expire()
      requires Valid()
      modifies this
      ensures Valid() && Did(old(State()), Action.Expire)
    {
      if wait.Some? {
        queue := queue + [wait.value];
        wait := None;
      }
    }

    /** The strand runs its next handler up to the call of the slot function. */
    method Begin()
      requires Valid()
      modifies this
      ensures Valid() && Did(old(State()), Action.Begin)
    {
      if current.None? && queue != [] {
        var job := queue[0];
        queue := queue[1..];
        var passes: bool;
        match job {
          case Call(slot, _) => passes := IsOpen(slot);
          case Chain(slot, _, _) => passes := IsOpen(slot);
          case Timer(slot, _, aborted) => passes := IsOpen(slot); passes := passes && !aborted;
          case StopTask => passes := true;
        }
        if passes {
          current := Some(job);
          ran := ran + [job];
        }
      }
    }

    /** The slot function returns; a producer's result is dispatched to its consumer. */
    method End()
      requires Valid()
      modifies this
      ensures Valid() && Did(old(State()), Action.End)
    {
      if current.Some? {
        var job := current.value;
        current := None;
        if job.Chain? {
          DispatchNamed(job.consumer, task(job.slot, job.msg));
        }
      }
    }

    method Lookup(name: string) returns (slot: nat)
      ensures slot == SlotOf(names, name)
    {
      slot := if name in names then names[name] else NPOS;
    }

    method SetChannelName(name: string, slot: nat) returns (inserted: bool)
      requires Valid()
      modifies this`names
      ensures Valid() && Did(old(State()), SetName(name, slot)) && inserted == (name !in old(names))
    {
      inserted := name !in names;
      if inserted {
        names := names[name := slot];
      }
    }

    method SetChannelNames(il: seq<string>)
      requires Valid()
      modifies this`names
      ensures Valid() && names == NamedAll(old(names), il, |old(names)|)
    {
      var index := |names|;
      var i := 0;
      while i < |il|
        invariant Valid() && i <= |il| && index == |old(names)| + i
        invariant NamedAll(old(names), il, |old(names)|) == NamedAll(names, il[i..], index)
      {
        assert il[i..][0] == il[i] && il[i..][1..] == il[i + 1..];
        var inserted := SetChannelName(il[i], index);
        index, i := index + 1, i + 1;
      }
    }
  }
}
