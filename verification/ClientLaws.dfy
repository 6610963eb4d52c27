/** What each event does to the write queue, and what holds in every run, resets included. */
module ClientLaws {
  import opened ClientModel

  // ---- single events ----------------------------------------------------

  /** A message is queued; it is written at once if it is alone and the channel is open. */
  lemma SendLaw(c: Client, msg: Buf)
    requires Enabled(c, Send(msg))
    ensures Step(c, Send(msg)) ==
      c.(snd := c.snd + [msg], sent := c.sent + [msg],
         flight := if c.open && c.snd == [] then c.flight + [Write(msg, false)] else c.flight)
  {
  }

  /** These writes are the others, without their buffers. */
  predicate AllFreed(writes: seq<Write>, others: seq<Write>) {
    |writes| == |others| && forall i :: 0 <= i < |writes| ==> writes[i] == Write(others[i].buf, true)
  }

  /** A completed write takes its message off the queue and starts the next one; what it confirms
      is its own buffer, if it still had it. */
  lemma WrittenLaw(c: Client)
    requires Enabled(c, Written) && c.snd != []
    ensures var c' := Step(c, Written);
      && c'.snd == c.snd[1..] && c'.sent == c.sent && c'.open == c.open && c'.reported == c.reported && !c'.broken
      && c'.confirmed == c.confirmed + (if c.flight[0].freed then [] else [c.flight[0].buf])
      && var n := |c.flight| - 1;
      && |c'.flight| == n + (if c.open && |c.snd| > 1 then 1 else 0) && AllFreed(c'.flight[..n], c.flight[1..])
      && (c.open && |c.snd| > 1 ==> c'.flight[n] == Write(c.snd[1], false))
  {
    var rest := Freed(c.flight[1..]);
    if c.open && |c.snd| > 1 {
      assert (rest + [Write(c.snd[1], false)])[..|rest|] == rest;
    } else {
      assert rest[..|rest|] == rest;
    }
  }

  /** A failed write or read, and the stop slot, empty the queue and free every buffer; the failures
      are reported while the channel is open. */
  lemma ResetLaw(c: Client, a: Action)
    requires Enabled(c, a) && (a.WriteFailed? || a.ReadFailed? || a.StopSlot?)
    ensures var c' := Step(c, a);
      && c'.snd == [] && c'.sent == c.sent && c'.confirmed == c.confirmed && c'.open == c.open && !c'.broken
      && AllFreed(c'.flight, if a.WriteFailed? then c.flight[1..] else c.flight)
      && c'.reported == c.reported + if c.open && !a.StopSlot? then 1 else 0
  {
  }

  lemma CloseLaw(c: Client)
    requires Enabled(c, CloseChannel)
    ensures Step(c, CloseChannel) == c.(open := false)
  {
  }

  // ---- runs -------------------------------------------------------------

  function Sends(actions: seq<Action>, n: nat): seq<Buf>
    requires n <= |actions|
  {
    if n == 0 then [] else Sends(actions, n - 1) + if actions[n - 1].Send? then [actions[n - 1].msg] else []
  }

  /** The failed reads and writes while the channel was open. */
  function Failures(states: seq<Client>, actions: seq<Action>, n: nat): nat
    requires n <= |actions| < |states|
  {
    if n == 0 then 0
    else
      var a := actions[n - 1];
      Failures(states, actions, n - 1) + if (a.WriteFailed? || a.ReadFailed?) && states[n - 1].open then 1 else 0
  }

  /** The channel is open until it is closed. */
  lemma {:induction false} OpenExactly(states: seq<Client>, actions: seq<Action>, n: nat)
    requires Run(states, actions) && n <= |actions|
    ensures states[n].open <==> forall i :: 0 <= i < n ==> !actions[i].CloseChannel?
    decreases n
  {
    if n > 0 {
      OpenExactly(states, actions, n - 1);
      StepRecords(states[n - 1], actions[n - 1]);
    }
  }

  lemma StepRecords(c: Client, a: Action)
    requires Enabled(c, a)
    ensures Step(c, a).open == (c.open && !a.CloseChannel?)
    ensures Step(c, a).sent == if a.Send? then c.sent + [a.msg] else c.sent
    ensures Step(c, a).reported == c.reported + if (a.WriteFailed? || a.ReadFailed?) && c.open then 1 else 0
  {
  }

  /** Every message given is recorded, in order. */
  lemma {:induction false} SentExactly(states: seq<Client>, actions: seq<Action>, n: nat)
    requires Run(states, actions) && n <= |actions|
    ensures states[n].sent == Sends(actions, n)
    decreases n
  {
    if n > 0 {
      SentExactly(states, actions, n - 1);
      StepRecords(states[n - 1], actions[n - 1]);
      assert Sends(actions, n - 1) + [] == Sends(actions, n - 1);
    }
  }

  /** Each failed read or write on the open channel is reported once, and nothing else is. */
  lemma {:induction false} ReportedExactly(states: seq<Client>, actions: seq<Action>, n: nat)
    requires Run(states, actions) && n <= |actions|
    ensures states[n].reported == Failures(states, actions, n)
    decreases n
  {
    if n > 0 {
      ReportedExactly(states, actions, n - 1);
      StepRecords(states[n - 1], actions[n - 1]);
    }
  }

  ghost predicate Within(a: seq<Buf>, b: seq<Buf>)
    decreases |b|
  {
    if a == [] then true
    else b != [] && ((a[|a| - 1] == b[|b| - 1] && Within(a[..|a| - 1], b[..|b| - 1])) || Within(a, b[..|b| - 1]))
  }

  lemma WithinMore(a: seq<Buf>, b: seq<Buf>, x: Buf)
    requires Within(a, b)
    ensures Within(a + [x], b + [x]) && Within(a, b + [x])
  {
    assert (a + [x])[..|a|] == a && (b + [x])[..|b|] == b;
  }

  lemma {:induction false} WithinWithout(a: seq<Buf>, x: seq<Buf>, b: seq<Buf>, c: seq<Buf>)
    requires Within(a + x + b, c)
    ensures Within(a + b, c)
    decreases |c|
  {
    if x == [] {
      assert a + x + b == a + b;
    } else if b != [] {
      var all, n := a + x + b, |b| - 1;
      assert all[..|all| - 1] == a + x + b[..n] && (a + b)[..|a + b| - 1] == a + b[..n];
      if all[|all| - 1] == c[|c| - 1] && Within(all[..|all| - 1], c[..|c| - 1]) {
        WithinWithout(a, x, b[..n], c[..|c| - 1]);
      } else {
        WithinWithout(a, x, b, c[..|c| - 1]);
      }
    } else {
      var all, n := a + x, |x| - 1;
      assert a + x + b == all && a + b == a && all[..|all| - 1] == a + x[..n] + [];
      if all[|all| - 1] == c[|c| - 1] && Within(all[..|all| - 1], c[..|c| - 1]) {
        WithinWithout(a, x[..n], [], c[..|c| - 1]);
        assert a + [] == a;
        WithinLonger(a, c);
      } else {
        WithinWithout(a, x, b, c[..|c| - 1]);
        WithinLonger(a, c);
      }
    }
  }

  lemma WithinLonger(a: seq<Buf>, b: seq<Buf>)
    requires b != [] && Within(a, b[..|b| - 1])
    ensures Within(a, b)
  {
  }

  /** The queue is the end of what was sent; what is confirmed and what is queued are messages
      sent, in order; and a write that still has its buffer is the last one out, of the queue's front. */
  ghost predicate Honest(c: Client) {
    EndsWith(c.sent, c.snd) && Within(c.confirmed + c.snd, c.sent) && FrontOnly(c.flight, c.snd)
  }

  predicate EndsWith(all: seq<Buf>, end: seq<Buf>) { |end| <= |all| && end == all[|all| - |end|..] }

  predicate FrontOnly(flight: seq<Write>, snd: seq<Buf>) {
    forall i :: 0 <= i < |flight| && !flight[i].freed ==>
      i == |flight| - 1 && snd != [] && flight[i].buf == snd[0]
  }

  lemma StepHonest(c: Client, a: Action)
    requires Enabled(c, a) && Honest(c)
    ensures Honest(Step(c, a))
  {
    match a
    case Send(msg) => SendHonest(c, msg);
    case Written => if c.snd != [] { WrittenHonest(c); }
    case CloseChannel =>
    case _ => ResetHonest(c, a);
  }

  lemma SendHonest(c: Client, msg: Buf)
    requires Enabled(c, Send(msg)) && Honest(c)
    ensures Honest(Step(c, Send(msg)))
  {
    SendLaw(c, msg);
    WithinMore(c.confirmed + c.snd, c.sent, msg);
    assert c.confirmed + (c.snd + [msg]) == (c.confirmed + c.snd) + [msg];
  }

  lemma ResetHonest(c: Client, a: Action)
    requires Enabled(c, a) && Honest(c) && (a.WriteFailed? || a.ReadFailed? || a.StopSlot?)
    ensures Honest(Step(c, a))
  {
    ResetLaw(c, a);
    assert c.confirmed + c.snd + [] == c.confirmed + c.snd && c.confirmed + [] == c.confirmed;
    WithinWithout(c.confirmed, c.snd, [], c.sent);
  }

  lemma WrittenHonest(c: Client)
    requires Enabled(c, Written) && c.snd != [] && Honest(c)
    ensures Honest(Step(c, Written))
  {
    WrittenLaw(c);
    WrittenConfirms(c);
    WrittenFront(c);
  }

  lemma WrittenConfirms(c: Client)
    requires c.snd != [] && c.flight != [] && Within(c.confirmed + c.snd, c.sent) && FrontOnly(c.flight, c.snd)
    ensures var more := if c.flight[0].freed then [] else [c.flight[0].buf];
      Within((c.confirmed + more) + c.snd[1..], c.sent)
  {
    assert c.confirmed + c.snd == c.confirmed + [c.snd[0]] + c.snd[1..];
    if c.flight[0].freed {
      WithinWithout(c.confirmed, [c.snd[0]], c.snd[1..], c.sent);
      assert c.confirmed + [] == c.confirmed;
    }
  }

  lemma WrittenFront(c: Client)
    requires Enabled(c, Written) && c.snd != []
    ensures FrontOnly(Step(c, Written).flight, c.snd[1..])
  {
    var c', n := Step(c, Written), |c.flight| - 1;
    WrittenLaw(c);
    assert forall i :: 0 <= i < n ==> c'.flight[i] == c'.flight[..n][i];
  }

  /** In every run, whatever fails: only messages that were sent are confirmed, in order and each once,
      and the queue holds exactly the last ones sent. */
  lemma {:induction false} AlwaysHonest(states: seq<Client>, actions: seq<Action>, n: nat)
    requires Run(states, actions) && n <= |actions|
    ensures Honest(states[n])
    decreases n
  {
    if n > 0 {
      AlwaysHonest(states, actions, n - 1);
      StepHonest(states[n - 1], actions[n - 1]);
    }
  }
}
