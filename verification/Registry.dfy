/** The registry as an object, together with what it can see of the channels: which are
    open and which are still owned. */
module Registry {
  import opened Dom
  import opened RegistryModel

  class Registry {
    var last: nat
    var open: set<nat>
    var held: set<nat>
    var queue: seq<Job>
    var list: map<nat, nat>
    var shutdown: bool
    var stopped: seq<nat>
    ghost var missed: set<nat>

    constructor ()
      ensures State() == START
    {
      last, open, held, queue, list, shutdown, stopped, missed := 0, {}, {}, [], map[], false, [], {};
    }

    ghost function State(): Reg
      reads this
    {
      Reg(last, open, held, queue, list, shutdown, stopped, missed)
    }

    method IsAlive(id: nat) returns (r: bool)
      ensures r == Alive(State(), id)
    {
      r := id in held || Job.Insert(id) in queue;
    }

    method Post(job: Job)
      modifies this`queue
      ensures State() == RegistryModel.Post(old(State()), job)
    {
      if !shutdown {
        queue := queue + [job];
      }
    }

    /** A new id, an open channel, and a posted insert. */
    method CreateChannel() returns (id: nat)
      modifies this
      ensures State() == Step(old(State()), Create) && id == old(last) + 1
    {
      last := last + 1;
      id := last;
      open, held := open + {id}, held + {id};
      Post(Job.Insert(id));
    }

    method Close(id: nat) returns (closed: bool)
      modifies this`open, this`stopped
      ensures State() == RegistryModel.Close(old(State()), id) && closed == (id in old(open))
    {
      closed := id in open;
      if closed {
        open, stopped := open - {id}, stopped + [id];
      }
    }

    method Stop(id: nat)
      modifies this
      ensures State() == Step(old(State()), Action.Stop(id))
    {
      if id in held {
        var closed := Close(id);
      }
    }

    /** The deleter of a channel that nobody owns any more asserts that it is closed and posts its removal. */
    method Dispose(id: nat) returns (asserts: bool)
      modifies this`queue
      ensures State()
        == if Alive(old(State()), id) then old(State()) else RegistryModel.Post(old(State()), Job.Remove(id))
      ensures asserts == (!Alive(old(State()), id) && id in open)
    {
      var alive := IsAlive(id);
      asserts := !alive && id in open;
      if !alive {
        Post(Job.Remove(id));
      }
    }

    /** Asserts exactly when the last owner lets go of a channel that is still open. */
    method Release(id: nat) returns (asserts: bool)
      modifies this
      ensures State() == Step(old(State()), Action.Release(id))
      ensures asserts == (id in old(held) && id in open && !Alive(State(), id))
    {
      asserts := false;
      if id in held {
        held := held - {id};
        asserts := Dispose(id);
      }
    }

    /** Asserts exactly when an insert meets a closed channel, or was the last owner of an open one. */
    method RunNext() returns (asserts: bool)
      modifies this
      ensures State() == Step(old(State()), Action.RunNext)
      ensures asserts == (old(queue) != [] && old(queue)[0].Insert?
        && (old(queue)[0].id !in open || !Alive(State(), old(queue)[0].id)))
    {
      if queue == [] { return false; }
      var job := queue[0];
      queue := queue[1..];
      match job {
        case Insert(id) =>
          var key := if id in open then id else 0;
          missed := if id in open then missed else missed + {id};
          if key !in list {
            list := list[key := id];
          }
          asserts := Dispose(id);
          asserts := asserts || id !in open;
        case Remove(id) =>
          RemoveSync(id);
          asserts := false;
      }
    }

    method RemoveSync(id: nat)
      modifies this`list
      ensures list == old(list) - {id}
    {
      if id in list {
        list := list - {id};
      }
    }

    /** The channel found is the one asked for; with the strand drained,
        one is found exactly for the ids somebody still holds that did not miss their entry. */
    method LookupSync(id: nat) returns (r: Option<nat>)
      ensures r.Some? ==> id in list && r.value == list[id] && Alive(State(), r.value)
      ensures r.None? ==> id !in list || !Alive(State(), list[id])
      ensures Sane(State()) && id > 0 && r.Some? ==> r.value == id
      ensures Ok(State()) && id > 0 && queue == [] ==> r == if id in held && id !in missed then Some(id) else None
    {
      r := None;
      if id in list {
        var alive := IsAlive(list[id]);
        if alive { r := Some(list[id]); }
      }
    }

    /** Stops all channels in reverse order and clears the list; only the first call counts. */
    method Shutdown() returns (first: bool)
      modifies this
      ensures State() == Step(old(State()), Action.Shutdown) && first == !old(shutdown)
    {
      if shutdown { return false; }
      shutdown := true;
      ghost var r0 := State();
      var n := last;
      while true
        invariant 0 <= n && StopDown(r0, r0.last) == StopDown(State(), n)
        invariant list == r0.list && last == r0.last
        decreases n
      {
        if n in list {
          var alive := IsAlive(list[n]);
          if alive {
            var closed := Close(list[n]);
          }
        }
        if n == 0 { break; }
        n := n - 1;
      }
      list := map[];
      return true;
    }

    /** Asserts exactly when the list is not empty. */
    method Reset() returns (restarted: bool, asserts: bool)
      modifies this
      ensures State() == Step(old(State()), Action.Reset)
      ensures restarted == (old(shutdown) && list == map[]) && asserts == (list != map[])
    {
      asserts := list != map[];
      restarted := shutdown && list == map[];
      shutdown := false;
    }
  }
}
