/** Frames: the chain of saved base pointers, and what REBA and PULL give back. */
module VmFrames {
  import opened Dom
  import opened OpCodes
  import opened VmModel
  import opened VmPrograms

  /** How many slots an instruction takes off the stack. */
  function Reach(s: seq<Obj>, obj: Obj): nat {
    if !obj.Instr? then 0
    else
      match obj.op
      case Resolve => 1
      case Split => 1
      case AssertType => 1
      case AssertValue => 1
      case MakeAttr => 2
      case MakeParam => 2
      case MakeProp => 2
      case Invoke => 2 + CountAt(s, 2)
      case InvokeR => 2 + CountAt(s, 2)
      case Forward => 3 + CountAt(s, 3)
      case MakeAttrMap => 1 + CountAt(s, 1)
      case MakeParamMap => 1 + CountAt(s, 1)
      case MakePropMap => 1 + CountAt(s, 1)
      case MakeTuple => 1 + CountAt(s, 1)
      case MakeVector => 1 + CountAt(s, 1)
      case MakeDeque => 1 + CountAt(s, 1)
      case MakePrg => 1 + CountAt(s, 1)
      case _ => 0
  }

  /** The count found `depth` slots from the top. */
  function CountAt(s: seq<Obj>, depth: nat): nat {
    if 1 <= depth <= |s| && s[|s| - depth].Size? then s[|s| - depth].n else 0
  }

  predicate IsFrameOp(obj: Obj) { obj.Instr? && (obj.op.Esba? || obj.op.Reba? || obj.op.Pull?) }

  /** Every other instruction leaves the slots below its reach, and the base pointer, alone. */
  lemma Footprint(env: Env, st: Vm, obj: Obj)
    requires !IsFrameOp(obj) && Exec(env, st, obj).Some?
    ensures var st' := Exec(env, st, obj).value;
      && st'.bp == st.bp && Reach(st.s, obj) <= |st.s|
      && st.s[..|st.s| - Reach(st.s, obj)] <= st'.s
  {
    if obj.Instr? {
      match obj.op
      case Invoke => CallReach(st.s);
      case Forward => CallReach(st.s[..|st.s| - 1]);
      case InvokeR => InvokeRFootprint(env, st);
      case MakeAttrMap => MapFootprint(env, st, Attr);
      case MakeParamMap => MapFootprint(env, st, Param);
      case MakePropMap => MapFootprint(env, st, Prop);
      case _ =>
    }
  }

  lemma InvokeRFootprint(env: Env, st: Vm)
    requires ExecOp(env, st, InvokeR).Some?
    ensures var st' := ExecOp(env, st, InvokeR).value; var reach := 2 + CountAt(st.s, 2);
      st'.bp == st.bp && reach <= |st.s| && st.s[..|st.s| - reach] <= st'.s
  {
    var n := |st.s|;
    assert st.s[..n - 1][..n - 2 - CountAt(st.s, 2)] == st.s[..n - 2 - CountAt(st.s, 2)];
  }

  lemma MapFootprint(env: Env, st: Vm, kind: PairKind)
    requires MakeMap(kind, st).Some?
    ensures var st' := MakeMap(kind, st).value; var reach := 1 + CountAt(st.s, 1);
      st'.bp == st.bp && reach <= |st.s| && st.s[..|st.s| - reach] <= st'.s
  {
  }

  lemma CallReach(s: seq<Obj>)
    requires TakeCall(s).Some?
    ensures |s| >= 2 + CountAt(s, 2) && TakeCall(s).value.2 == s[..|s| - 2 - CountAt(s, 2)]
  {
  }

  /** What ESBA found: the stack below the base slot, and the base pointer it saved. */
  datatype Frame = Frame(below: seq<Obj>, bp: nat)

  /** The open frames, innermost first, are all intact on the stack. */
  ghost predicate InFrames(s: seq<Obj>, bp: nat, frames: seq<Frame>)
    decreases |frames|
  {
    if frames == [] then bp == 0
    else
      && bp < |s| && s[..bp] == frames[0].below && s[bp] == Size(frames[0].bp)
      && InFrames(frames[0].below, frames[0].bp, frames[1..])
  }

  /** The instruction does not pop the base slot of the innermost frame, and closes a frame only if one is open. */
  predicate Respects(st: Vm, frames: seq<Frame>, obj: Obj) {
    if obj == Instr(Reba) || obj == Instr(Pull) then frames != []
    else frames == [] || Reach(st.s, obj) + st.bp < |st.s|
  }

  function Track(st: Vm, frames: seq<Frame>, obj: Obj): seq<Frame> {
    if obj == Instr(Esba) then [Frame(st.s, st.bp)] + frames
    else if (obj == Instr(Reba) || obj == Instr(Pull)) && frames != [] then frames[1..]
    else frames
  }

  lemma {:induction false} PrefixFrames(s: seq<Obj>, s': seq<Obj>, bp: nat, frames: seq<Frame>)
    requires InFrames(s, bp, frames)
    requires frames != [] ==> bp < |s'| && s[..bp + 1] == s'[..bp + 1]
    ensures InFrames(s', bp, frames)
  {
  }

  lemma {:induction false} EsbaOpens(env: Env, st: Vm, frames: seq<Frame>)
    requires InFrames(st.s, st.bp, frames)
    ensures Exec(env, st, Instr(Esba)) == Some(Opened(st))
    ensures InFrames(Opened(st).s, Opened(st).bp, [Frame(st.s, st.bp)] + frames)
  {
  }

  /** REBA goes back to exactly what ESBA found. */
  lemma {:induction false} RebaRestores(env: Env, st: Vm, frames: seq<Frame>)
    requires InFrames(st.s, st.bp, frames) && frames != []
    ensures Exec(env, st, Instr(Reba)) == Some(Vm(frames[0].below, frames[0].bp, st.sent))
    ensures InFrames(frames[0].below, frames[0].bp, frames[1..])
  {
  }

  /** PULL does the same but keeps everything above the base slot. */
  lemma {:induction false} PullRestores(env: Env, st: Vm, frames: seq<Frame>)
    requires InFrames(st.s, st.bp, frames) && frames != []
    ensures Exec(env, st, Instr(Pull)) == Some(Vm(frames[0].below + st.s[st.bp + 1..], frames[0].bp, st.sent))
    ensures InFrames(frames[0].below + st.s[st.bp + 1..], frames[0].bp, frames[1..])
  {
  }

  lemma {:induction false} OtherKeeps(env: Env, st: Vm, frames: seq<Frame>, obj: Obj)
    requires InFrames(st.s, st.bp, frames) && Respects(st, frames, obj) && Exec(env, st, obj).Some? && !IsFrameOp(obj)
    ensures var st' := Exec(env, st, obj).value; InFrames(st'.s, st'.bp, frames)
  {
    var st' := Exec(env, st, obj).value;
    Footprint(env, st, obj);
    var kept := st.s[..|st.s| - Reach(st.s, obj)];
    if frames != [] {
      assert kept[..st.bp + 1] == st.s[..st.bp + 1];
      assert st'.s[..st.bp + 1] == kept[..st.bp + 1];
    }
    PrefixFrames(st.s, st'.s, st.bp, frames);
  }

  /** One instruction that respects the frames leaves them intact. */
  lemma {:induction false} StepInFrames(env: Env, st: Vm, frames: seq<Frame>, obj: Obj)
    requires InFrames(st.s, st.bp, frames) && Respects(st, frames, obj) && Exec(env, st, obj).Some?
    ensures var st' := Exec(env, st, obj).value; InFrames(st'.s, st'.bp, Track(st, frames, obj))
  {
    if obj == Instr(Esba) {
      EsbaOpens(env, st, frames);
    } else if obj == Instr(Reba) {
      RebaRestores(env, st, frames);
    } else if obj == Instr(Pull) {
      PullRestores(env, st, frames);
    } else {
      OtherKeeps(env, st, frames, obj);
    }
  }

  /** The saved base pointers fall strictly from the innermost frame to the outermost, which saved zero. */
  lemma {:induction false} ChainFalls(s: seq<Obj>, bp: nat, frames: seq<Frame>, i: nat)
    requires InFrames(s, bp, frames) && i < |frames|
    ensures i + 1 < |frames| ==> frames[i].bp < if i == 0 then bp else frames[i - 1].bp
    ensures i + 1 == |frames| ==> frames[i].bp == 0
    decreases |frames|
  {
    var outer := frames[0];
    if i > 0 {
      ChainFalls(outer.below, outer.bp, frames[1..], i - 1);
    } else if |frames| > 1 {
      assert outer.bp < |outer.below|;
    }
  }

  ghost predicate RespectsAll(env: Env, st: Vm, frames: seq<Frame>, prog: seq<Obj>)
    decreases |prog|
  {
    if prog == [] then true
    else
      var next := Exec(env, st, prog[0]);
      && Respects(st, frames, prog[0])
      && (next.Some? ==> RespectsAll(env, next.value, Track(st, frames, prog[0]), prog[1..]))
  }

  ghost function TrackAll(env: Env, st: Vm, frames: seq<Frame>, prog: seq<Obj>): seq<Frame>
    decreases |prog|
  {
    if prog == [] then frames
    else
      var next := Exec(env, st, prog[0]);
      if next.None? then frames else TrackAll(env, next.value, Track(st, frames, prog[0]), prog[1..])
  }

  /** The frames stay intact in every state such a program reaches. */
  lemma {:induction false} RunInFrames(env: Env, st: Vm, frames: seq<Frame>, prog: seq<Obj>)
    requires InFrames(st.s, st.bp, frames) && RespectsAll(env, st, frames, prog) && Run(env, st, prog).Some?
    ensures var st' := Run(env, st, prog).value; InFrames(st'.s, st'.bp, TrackAll(env, st, frames, prog))
    decreases |prog|
  {
    if prog != [] {
      StepInFrames(env, st, frames, prog[0]);
      RunInFrames(env, Exec(env, st, prog[0]).value, Track(st, frames, prog[0]), prog[1..]);
    }
  }

  /** A body between ESBA and its matching REBA or PULL, with any frames of its own, leaves
      nothing behind: REBA restores stack and base pointer, PULL also keeps what is above. */
  lemma {:induction false} MatchingFrame(env: Env, st: Vm, frames: seq<Frame>, body: seq<Obj>)
    requires InFrames(st.s, st.bp, frames)
    requires var inner := [Frame(st.s, st.bp)] + frames;
      && Run(env, Opened(st), body).Some? && RespectsAll(env, Opened(st), inner, body)
      && TrackAll(env, Opened(st), inner, body) == inner
    ensures var end := Run(env, Opened(st), body).value;
      && Run(env, st, [Instr(Esba)] + body + [Instr(Reba)]) == Some(Vm(st.s, st.bp, end.sent))
      && |st.s| < |end.s|
      && Run(env, st, [Instr(Esba)] + body + [Instr(Pull)]) == Some(Vm(st.s + end.s[|st.s| + 1..], st.bp, end.sent))
  {
    var inner := [Frame(st.s, st.bp)] + frames;
    var end := Run(env, Opened(st), body).value;
    EsbaOpens(env, st, frames);
    RunInFrames(env, Opened(st), inner, body);
    RebaRestores(env, end, inner);
    PullRestores(env, end, inner);
    RunOne(env, st, Instr(Esba));
    RunAppend(env, st, [Instr(Esba)], body);
    RunThen(env, st, [Instr(Esba)] + body, Instr(Reba));
    RunThen(env, st, [Instr(Esba)] + body, Instr(Pull));
  }
}
