/** The write queue of the TCP client: one write at a time, each for the front of the queue. */
module ClientModel {

  type Buf = seq<nat>

  /** A write handed to the socket, of a buffer that is in the queue until it is freed. */
  datatype Write = Write(buf: Buf, freed: bool)

  /** `flight` holds the writes not completed yet, `confirmed` the buffers written as they were,
      `sent` all messages given to send. `reported` counts the on_disconnect messages dispatched.
      `broken` says that a completion found the queue empty: the source asserts, and takes the
      front off an empty queue. */
  datatype Client = Client(open: bool, snd: seq<Buf>, flight: seq<Write>, confirmed: seq<Buf>, sent: seq<Buf>,
                           reported: nat, broken: bool)

  datatype Action =
    | Send(msg: Buf)
    | Written       // the oldest write completes
    | WriteFailed   // the oldest write completes with an error
    | ReadFailed    // a read completes with an error: the connection is reset
    | CloseChannel
    | StopSlot      // the stop slot runs on the closed channel: the connection is reset

  function DoWrite(c: Client): Client
    requires c.snd != []
  {
    if c.open then c.(flight := c.flight + [Write(c.snd[0], false)]) else c
  }

  /** The buffers these writes were started with are gone. */
  function Freed(writes: seq<Write>): (r: seq<Write>)
    ensures |r| == |writes| && forall i :: 0 <= i < |r| ==> r[i] == writes[i].(freed := true)
  {
    seq(|writes|, i requires 0 <= i < |writes| => writes[i].(freed := true))
  }

  function Reset(c: Client): Client { c.(snd := [], flight := Freed(c.flight)) }

  /** The channel takes the message on_disconnect while it is open. */
  function Report(c: Client): Client { if c.open then c.(reported := c.reported + 1) else c }

  /** A completed write takes the front off the queue, and with it the buffer of any other write
      that is still out; what it wrote is known if its own buffer was still there. */
  function Completed(c: Client): Client
    requires c.flight != []
  {
    var w := c.flight[0];
    c.(flight := Freed(c.flight[1..]), confirmed := if w.freed then c.confirmed else c.confirmed + [w.buf])
  }

  /** Completions come only for writes in flight; nothing comes after a break. */
  predicate Enabled(c: Client, a: Action) {
    !c.broken && (a.Written? || a.WriteFailed? ==> c.flight != []) && (a.StopSlot? ==> !c.open)
  }

  function Step(c: Client, a: Action): Client
    requires Enabled(c, a)
  {
    match a
    case Send(msg) =>
      var c' := c.(snd := c.snd + [msg], sent := c.sent + [msg]);
      if c.snd == [] then DoWrite(c') else c'
    case Written =>
      if c.snd == [] then Completed(c).(broken := true)
      else if |c.snd| == 1 then Completed(c).(snd := [])
      else DoWrite(Completed(c).(snd := c.snd[1..]))
    case WriteFailed => Report(Reset(c.(flight := c.flight[1..])))
    case ReadFailed => Report(Reset(c))
    case CloseChannel => c.(open := false)
    case StopSlot => Reset(c)
  }

  const START: Client := Client(true, [], [], [], [], 0, false)

  ghost predicate Run(states: seq<Client>, actions: seq<Action>) {
    && |states| == |actions| + 1 && states[0] == START
    && forall i :: 0 <= i < |actions| ==> Enabled(states[i], actions[i]) && states[i + 1] == Step(states[i], actions[i])
  }

  // ---- without resets ---------------------------------------------------

  function Bytes(bufs: seq<Buf>): Buf {
    if bufs == [] then [] else bufs[0] + Bytes(bufs[1..])
  }

  lemma {:induction false} BytesAppend(a: seq<Buf>, b: seq<Buf>)
    ensures Bytes(a + b) == Bytes(a) + Bytes(b)
    decreases |a|
  {
    if a == [] {
      assert a + b == b;
    } else {
      assert (a + b)[0] == a[0] && (a + b)[1..] == a[1..] + b;
      BytesAppend(a[1..], b);
    }
  }

  predicate Flows(c: Client) {
    && c.open && !c.broken && c.flight == (if c.snd == [] then [] else [Write(c.snd[0], false)])
    && c.confirmed + c.snd == c.sent
  }

  lemma StepFlows(c: Client, a: Action)
    requires Flows(c) && Enabled(c, a) && (a.Send? || a.Written?)
    ensures Flows(Step(c, a))
  {
    match a
    case Send(msg) => assert c.confirmed + (c.snd + [msg]) == (c.confirmed + c.snd) + [msg];
    case Written => WrittenFlows(c);
  }

  lemma WrittenFlows(c: Client)
    requires Flows(c) && c.flight != []
    ensures Flows(Step(c, Written))
  {
    var rest := c.snd[1..];
    assert c.snd == [c.snd[0]] + rest;
    assert Completed(c).flight == [] && Completed(c).confirmed == c.confirmed + [c.snd[0]];
    assert (c.confirmed + [c.snd[0]]) + rest == c.confirmed + c.snd;
  }

  /** With the channel open and no reset: a write is in flight exactly when the queue is not
      empty, never two at once, always for its front; and the bytes confirmed plus those
      queued are all bytes sent, in order. */
  lemma {:induction false} QueueFlows(states: seq<Client>, actions: seq<Action>, n: nat)
    requires Run(states, actions) && n <= |actions|
    requires forall i :: 0 <= i < n ==> actions[i].Send? || actions[i].Written?
    ensures Flows(states[n])
    ensures Bytes(states[n].confirmed) + Bytes(states[n].snd) == Bytes(states[n].sent)
    decreases n
  {
    if n > 0 {
      QueueFlows(states, actions, n - 1);
      StepFlows(states[n - 1], actions[n - 1]);
    }
    BytesAppend(states[n].confirmed, states[n].snd);
  }

  // ---- two writes at once -----------------------------------------------

  /** The i-th action resets a queue that is not empty, because a read failed; no write
      completes between it and the n-th. */
  predicate CutOff(states: seq<Client>, actions: seq<Action>, i: nat, n: nat)
    requires |states| == |actions| + 1 && n <= |actions|
  {
    && i < n && actions[i].ReadFailed? && states[i].snd != []
    && forall k :: i < k < n ==> !actions[k].Written? && !actions[k].WriteFailed?
  }

  /** The n-th action sends on the open channel after such a reset. */
  ghost predicate TooSoon(states: seq<Client>, actions: seq<Action>, n: nat)
    requires |states| == |actions| + 1 && n < |actions|
  {
    actions[n].Send? && states[n].open && exists i: nat :: CutOff(states, actions, i, n)
  }

  ghost predicate SomeTooSoon(states: seq<Client>, actions: seq<Action>, n: nat)
    requires |states| == |actions| + 1 && n <= |actions|
  {
    exists j :: 0 <= j < n && TooSoon(states, actions, j)
  }

  /** At most one write is out, and on an open channel one is out whenever something is queued. */
  predicate Single(c: Client) { |c.flight| <= 1 && (c.open && c.snd != [] ==> c.flight != []) }

  /** On an open channel a write without a queue was cut off. */
  ghost predicate Explained(states: seq<Client>, actions: seq<Action>, n: nat)
    requires |states| == |actions| + 1 && n <= |actions|
  {
    && Single(states[n])
    && (states[n].open && states[n].snd == [] && states[n].flight != [] ==>
      exists i: nat :: CutOff(states, actions, i, n))
  }

  lemma CutOffLater(states: seq<Client>, actions: seq<Action>, i: nat, n: nat)
    requires |states| == |actions| + 1 && n < |actions| && CutOff(states, actions, i, n)
    requires !actions[n].Written? && !actions[n].WriteFailed?
    ensures CutOff(states, actions, i, n + 1)
  {
  }

  lemma StepExplained(states: seq<Client>, actions: seq<Action>, n: nat)
    requires Run(states, actions) && n < |actions| && Explained(states, actions, n)
    requires !TooSoon(states, actions, n)
    ensures Explained(states, actions, n + 1)
  {
    var c, a := states[n], actions[n];
    if a.ReadFailed? && c.snd != [] {
      assert CutOff(states, actions, n, n + 1);
    } else if c.open && c.snd == [] && c.flight != [] {
      var i: nat :| CutOff(states, actions, i, n);
      if !a.Written? && !a.WriteFailed? {
        CutOffLater(states, actions, i, n);
      }
    }
  }

  lemma {:induction false} UntilTooSoon(states: seq<Client>, actions: seq<Action>, n: nat)
    requires Run(states, actions) && n <= |actions| && !SomeTooSoon(states, actions, n)
    ensures Explained(states, actions, n)
    decreases n
  {
    if n > 0 {
      UntilTooSoon(states, actions, n - 1);
      StepExplained(states, actions, n - 1);
    }
  }

  /** From the reset on, as long as nothing is sent, the queue is empty and the write is out. */
  lemma {:induction false} StillCutOff(states: seq<Client>, actions: seq<Action>, i: nat, n: nat)
    requires Run(states, actions) && n <= |actions| && CutOff(states, actions, i, n)
    requires states[i].flight != [] && forall k :: i < k < n ==> !actions[k].Send?
    ensures states[n].snd == [] && |states[n].flight| == |states[i].flight|
    decreases n
  {
    if i + 1 < n {
      StillCutOff(states, actions, i, n - 1);
    }
  }

  lemma {:induction false} StaysOpen(states: seq<Client>, actions: seq<Action>, i: nat, n: nat)
    requires Run(states, actions) && i <= n <= |actions| && states[n].open
    ensures states[i].open
    decreases n
  {
    if i < n {
      StaysOpen(states, actions, i, n - 1);
    }
  }

  /** The first send after the reset, at the latest the given one. */
  lemma {:induction false} FirstSend(actions: seq<Action>, i: nat, n: nat) returns (j: nat)
    requires i < n < |actions| && actions[n].Send?
    ensures i < j <= n && actions[j].Send? && forall k :: i < k < j ==> !actions[k].Send?
    decreases n
  {
    if k :| i < k < n && actions[k].Send? {
      j := FirstSend(actions, i, k);
    } else {
      j := n;
    }
  }

  lemma TooSoonDoubles(states: seq<Client>, actions: seq<Action>, n: nat)
    requires Run(states, actions) && n < |actions| && TooSoon(states, actions, n)
    ensures exists k :: 0 <= k < |states| && |states[k].flight| > 1
  {
    var i: nat :| CutOff(states, actions, i, n);
    var j := FirstSend(actions, i, n);
    StaysOpen(states, actions, i, n);
    StaysOpen(states, actions, j, n);
    if SomeTooSoon(states, actions, i) {
      var k :| 0 <= k < i && TooSoon(states, actions, k);
      TooSoonDoubles(states, actions, k);
    } else {
      UntilTooSoon(states, actions, i);
      StillCutOff(states, actions, i, j);
      assert |states[j + 1].flight| > 1;
    }
  }

  /** In every run, resets and errors included, two writes are in flight at some time if and
      only if something was sent on the open channel after a failed read had cleared a queue
      that was not empty, and before any write completed. */
  lemma NeverTwoExactly(states: seq<Client>, actions: seq<Action>)
    requires Run(states, actions)
    ensures (exists k :: 0 <= k < |states| && |states[k].flight| > 1) <==>
      exists i: nat, j: nat :: j < |actions| && CutOff(states, actions, i, j) && actions[j].Send? && states[j].open
  {
    if SomeTooSoon(states, actions, |actions|) {
      var j :| 0 <= j < |actions| && TooSoon(states, actions, j);
      TooSoonDoubles(states, actions, j);
      var i: nat :| CutOff(states, actions, i, j);
    } else {
      forall k | 0 <= k < |states| ensures |states[k].flight| <= 1 {
        UntilTooSoon(states, actions, k);
      }
      forall i: nat, j: nat | j < |actions| && actions[j].Send? && states[j].open
        ensures !CutOff(states, actions, i, j)
      {
        assert !TooSoon(states, actions, j);
      }
    }
  }

  /** Such runs exist: a send, a read error, another send. */
  lemma TwoInFlight()
    ensures var c1 := Step(START, Send([1])); var c2 := Step(c1, ReadFailed); var c3 := Step(c2, Send([2]));
      c3.flight == [Write([1], true), Write([2], false)]
  {
  }

  // ---- a write that loses its buffer ------------------------------------

  predicate Sound(c: Client) { forall i :: 0 <= i < |c.flight| ==> !c.flight[i].freed }

  /** The i-th action resets the connection while a write is out: a read fails, or the task stops. */
  predicate Spoils(states: seq<Client>, actions: seq<Action>, i: nat)
    requires |states| == |actions| + 1 && i < |actions|
  {
    (actions[i].ReadFailed? || actions[i].StopSlot?) && states[i].flight != []
  }

  lemma {:induction false} SoundUntilSpoiled(states: seq<Client>, actions: seq<Action>, n: nat)
    requires Run(states, actions) && n <= |actions|
    requires forall i :: 0 <= i < n ==> !Spoils(states, actions, i)
    ensures Sound(states[n]) && !SomeTooSoon(states, actions, n)
    decreases n
  {
    if n > 0 {
      var p := n - 1;
      SoundUntilSpoiled(states, actions, p);
      UntilTooSoon(states, actions, p);
      assert !Spoils(states, actions, p);
      if TooSoon(states, actions, p) {
        var i: nat :| CutOff(states, actions, i, p);
        StaysOpen(states, actions, i, p);
        CutOffWrites(states, actions, i, p);
      }
    }
  }

  /** The reset that cuts off on an open channel finds a write out. */
  lemma CutOffWrites(states: seq<Client>, actions: seq<Action>, i: nat, n: nat)
    requires Run(states, actions) && n <= |actions| && CutOff(states, actions, i, n) && states[i].open
    requires !SomeTooSoon(states, actions, n)
    ensures Spoils(states, actions, i)
  {
    UntilTooSoon(states, actions, i);
  }

  /** In every run, some write is out without its buffer at some time if and only if a read
      failed, or the task stopped, while a write was out. */
  lemma BufferLostExactly(states: seq<Client>, actions: seq<Action>)
    requires Run(states, actions)
    ensures (forall k :: 0 <= k < |states| ==> Sound(states[k])) <==>
      forall i :: 0 <= i < |actions| ==> !Spoils(states, actions, i)
  {
    if forall i :: 0 <= i < |actions| ==> !Spoils(states, actions, i) {
      forall k | 0 <= k < |states| ensures Sound(states[k]) {
        SoundUntilSpoiled(states, actions, k);
      }
    }
    if i :| 0 <= i < |actions| && Spoils(states, actions, i) {
      assert states[i + 1].flight[0].freed;
    }
  }

  // ---- a completion that finds the queue empty --------------------------

  predicate IsReset(a: Action) { a.ReadFailed? || a.WriteFailed? || a.StopSlot? }

  /** Messages sent less writes completed. */
  function Balance(actions: seq<Action>): int {
    var n := |actions| - 1;
    if actions == [] then 0
    else Balance(actions[..n]) + (if actions[n].Send? then 1 else if actions[n].Written? then -1 else 0)
  }

  /** The last reset before the n-th action is the i-th. */
  predicate LastReset(actions: seq<Action>, i: nat, n: nat)
    requires n <= |actions|
  {
    i < n && IsReset(actions[i]) && forall k :: i < k < n ==> !IsReset(actions[k])
  }

  lemma {:induction false} QueueSinceReset(states: seq<Client>, actions: seq<Action>, i: nat, n: nat)
    requires Run(states, actions) && n <= |actions| && LastReset(actions, i, n) && !states[n].broken
    ensures |states[n].snd| == Balance(actions[i + 1..n])
    decreases n
  {
    var p := n - 1;
    if i < p {
      QueueSinceReset(states, actions, i, p);
      assert actions[i + 1..n][..p - i - 1] == actions[i + 1..p];
    }
  }

  lemma {:induction false} NoResetYet(states: seq<Client>, actions: seq<Action>, n: nat)
    requires Run(states, actions) && n <= |actions| && forall k :: 0 <= k < n ==> !IsReset(actions[k])
    ensures |states[n].flight| <= 1 && (states[n].flight != [] ==> states[n].snd != [])
    decreases n
  {
    if n > 0 {
      NoResetYet(states, actions, n - 1);
    }
  }

  lemma {:induction false} FindReset(actions: seq<Action>, n: nat)
    requires n <= |actions| && exists k :: 0 <= k < n && IsReset(actions[k])
    ensures exists i: nat :: LastReset(actions, i, n)
    decreases n
  {
    if IsReset(actions[n - 1]) {
      assert LastReset(actions, n - 1, n);
    } else {
      FindReset(actions, n - 1);
      var i: nat :| LastReset(actions, i, n - 1);
      assert LastReset(actions, i, n);
    }
  }

  /** A completed write finds the queue empty if and only if there was a reset before it and
      since the last one as many writes have completed as messages were sent. */
  lemma BreaksExactly(states: seq<Client>, actions: seq<Action>, n: nat)
    requires Run(states, actions) && n < |actions| && actions[n].Written?
    ensures states[n + 1].broken <==>
      exists i: nat :: LastReset(actions, i, n) && Balance(actions[i + 1..n]) == 0
  {
    forall i: nat | LastReset(actions, i, n) ensures |states[n].snd| == Balance(actions[i + 1..n]) {
      QueueSinceReset(states, actions, i, n);
    }
    if forall k :: 0 <= k < n ==> !IsReset(actions[k]) {
      NoResetYet(states, actions, n);
    } else {
      FindReset(actions, n);
    }
  }
}

module ClientQueue {
  import opened ClientModel

  /** The client's handlers; which writes are out is the socket's side and is not seen by them. */
  class ClientTask {
    var open: bool
    var snd: seq<Buf>
    var reported: nat
    ghost var flight: seq<Write>
    ghost var confirmed: seq<Buf>
    ghost var sent: seq<Buf>
    ghost var broken: bool

    constructor ()
      ensures State() == START
    {
      open, snd, flight, confirmed, sent, reported, broken := true, [], [], [], [], 0, false;
    }

    ghost function State(): Client
      reads this
    {
      Client(open, snd, flight, confirmed, sent, reported, broken)
    }

    method Send(msg: Buf)
      requires Enabled(State(), Action.Send(msg))
      modifies this
      ensures State() == Step(old(State()), Action.Send(msg))
    {
      var b := snd == [];
      snd := snd + [msg];
      sent := sent + [msg];
      if b {
        DoWrite();
      }
    }

    method DoWrite()
      requires snd != []
      modifies this`flight
      ensures State() == ClientModel.DoWrite(old(State()))
    {
      if open {
        flight := flight + [Write(snd[0], false)];
      }
    }

    /** The completion handler of the oldest write; asserts when a completion finds the queue empty. */
    method HandleWrite(failed: bool) returns (asserts: bool)
      requires Enabled(State(), if failed then WriteFailed else Written)
      modifies this
      ensures State() == Step(old(State()), if failed then WriteFailed else Written)
      ensures asserts == broken && (asserts <==> !failed && old(snd) == [])
    {
      if failed {
        flight := flight[1..];
        Reset();
        OnDisconnect();
        return false;
      }
      confirmed := if flight[0].freed then confirmed else confirmed + [flight[0].buf];
      flight := Freed(flight[1..]);
      if snd == [] {
        broken := true;
        return true;
      }
      snd := snd[1..];
      if snd != [] {
        DoWrite();
      }
      return false;
    }

    method HandleReadError()
      requires Enabled(State(), ReadFailed)
      modifies this
      ensures State() == Step(old(State()), ReadFailed)
    {
      Reset();
      OnDisconnect();
    }

    method OnDisconnect()
      modifies this`reported
      ensures State() == Report(old(State()))
    {
      if open {
        reported := reported + 1;
      }
    }

    method Stop()
      requires Enabled(State(), StopSlot)
      modifies this
      ensures State() == Step(old(State()), StopSlot)
    {
      Reset();
    }

    /** Frees the buffers in the queue, whatever write is still out. */
    method Reset()
      modifies this`snd, this`flight
      ensures State() == ClientModel.Reset(old(State()))
    {
      snd := [];
      flight := Freed(flight);
    }
  }
}
