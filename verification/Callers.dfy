/** What the callers see of the steps of `Interleaving`: every call that is begun is carried out, or
    interrupted before it has the lock, and its caller gets its answer; and no call is kept from
    completing. */
module Callers {
  import opened Sequences
  import opened CircularBuffers
  import opened DriverSpec
  import opened Interleaving
  import Calls

  /** The calls of client `c` that have released the lock, in order. */
  function Finished(hist: seq<Event>, c: nat): seq<Call> {
    if hist == [] then []
    else Finished(hist[..|hist| - 1], c) + if hist[|hist| - 1].client == c then [hist[|hist| - 1].call] else []
  }

  /** The call client `c` is in, from its beginning to the release of the lock. */
  function UnderWay(s: State, c: nat): seq<Call>
    requires c < |s.pc|
  {
    match s.pc[c]
    case Idle => []
    case Returning(_, _) => []
    case Entering(call) => [call]
    case _ => if s.owner.Some? then [s.owner.value.call] else []
  }

  /** The calls client `c` has begun while idle, in order, less those interrupted while they waited
      for the lock. */
  function Asked(n: capacity, clients: nat, ts: seq<Move>, c: nat): seq<Call>
    requires c < clients
  {
    if ts == [] then []
    else
      var init, t := ts[..|ts| - 1], ts[|ts| - 1];
      var before, pc := Asked(n, clients, init, c), Steps(Start(n, clients), init).pc[c];
      if t.client != c then before
      else if pc.Idle? && t.action.Begin? then before + [t.action.call]
      else if pc.Entering? && t.action.Interrupt? && before != [] then before[..|before| - 1]
      else before
  }

  /** What a call hands to its caller. */
  datatype Answer = Answer(ret: int, out: bytes)

  /** The answers due to client `c`: of each of its calls as it releases the lock, and of each one
      that is interrupted. */
  function Due(n: capacity, clients: nat, ts: seq<Move>, c: nat): seq<Answer>
    requires c < clients
  {
    if ts == [] then []
    else
      var init, t := ts[..|ts| - 1], ts[|ts| - 1];
      Due(n, clients, init, c) + Falls(Steps(Start(n, clients), init), t, c)
  }

  /** The answers client `c` has got, each as its call returned. */
  function Got(n: capacity, clients: nat, ts: seq<Move>, c: nat): seq<Answer>
    requires c < clients
  {
    if ts == [] then []
    else
      var init, t := ts[..|ts| - 1], ts[|ts| - 1];
      var pc := Steps(Start(n, clients), init).pc[c];
      Got(n, clients, init, c) + if t == Move(c, Tick) && pc.Returning? then [Answer(pc.ret, pc.out)] else []
  }

  function Coming(s: State, c: nat): seq<Answer>
    requires c < |s.pc|
  {
    if s.pc[c].Returning? then [Answer(s.pc[c].ret, s.pc[c].out)] else []
  }

  /** What a move by client `c` does to its own standing, to the lock and to the record. */
  ghost predicate Advances(s: State, c: nat, action: Action, s': State)
    requires c < |s.pc| == |s'.pc|
  {
    var pc, pc' := s.pc[c], s'.pc[c];
    match pc
    case Idle =>
      s'.hist == s.hist && s'.owner == s.owner && pc' == if action.Begin? then Entering(action.call) else pc
    case Entering(call) =>
      && s'.hist == s.hist
      && if action.Take? && s.owner == None then s'.owner == Some(Holder(c, call)) && !Outside(pc')
         else s'.owner == s.owner && pc' == if action.Interrupt? then Returning(-ERESTARTSYS, []) else pc
    case Returning(_, _) =>
      s'.hist == s.hist && s'.owner == s.owner && pc' == if action.Tick? then Idle else pc
    case Unlocking(ret, out) =>
      && s.owner.Some?
      && if action.Tick? then
           s'.owner == None && pc' == Returning(ret, out)
           && s'.hist == s.hist + [Event(c, s.owner.value.call, ret, out)]
         else s'.hist == s.hist && s'.owner == s.owner && pc' == pc
    case _ => s'.hist == s.hist && s.owner.Some? && s'.owner == s.owner && !Outside(pc')
  }

  /** Who is inside a body holds the lock. */
  lemma OnlyHolderInside(n: capacity, s: State, c: nat)
    requires Inv(n, s) && c < |s.pc| && !Outside(s.pc[c])
    ensures s.owner.Some? && s.owner.value.client == c
  {
  }

  lemma BodyAdvances(n: capacity, s: State, c: nat)
    requires Inv(n, s) && c < |s.pc| && !Outside(s.pc[c]) && !s.pc[c].Unlocking?
    ensures var s' := Step(s, Move(c, Tick));
      s'.hist == s.hist && s'.owner == s.owner && s.owner.Some? && !Outside(s'.pc[c])
  {
    OnlyHolderInside(n, s, c);
    BodyIsInstalled(s, c);
    WorkKeeps(n, s, c);
  }

  lemma MoveAdvances(n: capacity, s: State, t: Move)
    requires Inv(n, s) && t.client < |s.pc|
    ensures Advances(s, t.client, t.action, Step(s, t))
    ensures forall d :: 0 <= d < |s.pc| && d != t.client ==> Step(s, t).pc[d] == s.pc[d]
  {
    var c := t.client;
    if !Outside(s.pc[c]) {
      OnlyHolderInside(n, s, c);
      if !s.pc[c].Unlocking? && t.action.Tick? { BodyAdvances(n, s, c); }
    }
  }

  lemma FinishedNext(hist: seq<Event>, e: Event, c: nat)
    ensures Finished(hist + [e], c) == Finished(hist, c) + if e.client == c then [e.call] else []
  {
    assert (hist + [e])[..|hist|] == hist;
  }

  predicate Begins(s: State, t: Move, c: nat)
    requires c < |s.pc|
  {
    t.client == c && s.pc[c].Idle? && t.action.Begin?
  }

  predicate Breaks(s: State, t: Move, c: nat)
    requires c < |s.pc|
  {
    t == Move(c, Interrupt) && s.pc[c].Entering?
  }

  function CallsOf(s: State, c: nat): seq<Call>
    requires c < |s.pc|
  {
    Finished(s.hist, c) + UnderWay(s, c)
  }

  lemma OwnCalls(s: State, c: nat, action: Action, s': State)
    requires c < |s.pc| == |s'.pc| && Advances(s, c, action, s')
    requires !Outside(s.pc[c]) ==> s.owner.Some? && s.owner.value.client == c
    ensures var t := Move(c, action);
      && (Begins(s, t, c) ==> CallsOf(s', c) == CallsOf(s, c) + [action.call])
      && (Breaks(s, t, c) ==> CallsOf(s, c) == CallsOf(s', c) + [s.pc[c].call])
      && (!Begins(s, t, c) && !Breaks(s, t, c) ==> CallsOf(s', c) == CallsOf(s, c))
  {
    if s.pc[c].Unlocking? && action.Tick? {
      FinishedNext(s.hist, Event(c, s.owner.value.call, s.pc[c].ret, s.pc[c].out), c);
    }
  }

  lemma OthersCalls(s: State, c: nat, action: Action, s': State, d: nat)
    requires c < |s.pc| == |s'.pc| && d < |s.pc| && d != c && Advances(s, c, action, s') && s'.pc[d] == s.pc[d]
    requires forall b :: 0 <= b < |s.pc| && !Outside(s.pc[b]) ==> s.owner.Some? && s.owner.value.client == b
    ensures CallsOf(s', d) == CallsOf(s, d)
  {
    if s.pc[c].Unlocking? && action.Tick? {
      FinishedNext(s.hist, Event(c, s.owner.value.call, s.pc[c].ret, s.pc[c].out), d);
    }
  }

  /** What one move does to the calls of client `c`. */
  lemma OneMove(n: capacity, s: State, t: Move, c: nat)
    requires Inv(n, s) && c < |s.pc|
    ensures Begins(s, t, c) ==> CallsOf(Step(s, t), c) == CallsOf(s, c) + [t.action.call]
    ensures Breaks(s, t, c) ==> CallsOf(s, c) == CallsOf(Step(s, t), c) + [s.pc[c].call]
    ensures !Begins(s, t, c) && !Breaks(s, t, c) ==> CallsOf(Step(s, t), c) == CallsOf(s, c)
  {
    if t.client < |s.pc| {
      MoveAdvances(n, s, t);
      forall b | 0 <= b < |s.pc| && !Outside(s.pc[b])
        ensures s.owner.Some? && s.owner.value.client == b
      {
        OnlyHolderInside(n, s, b);
      }
      if t.client == c {
        OwnCalls(s, c, t.action, Step(s, t));
      } else {
        OthersCalls(s, t.client, t.action, Step(s, t), c);
      }
    }
  }

  /** Every call begun is carried out, as the call it is: in any run the calls of a client that have
      released the lock, and the one it is in, are in order just those it began and that were not
      interrupted while they waited. */
  lemma {:induction false} EveryCallIsCarriedOut(n: capacity, clients: nat, ts: seq<Move>, c: nat)
    requires c < clients
    ensures var s := Steps(Start(n, clients), ts);
      Finished(s.hist, c) + UnderWay(s, c) == Asked(n, clients, ts, c)
  {
    if ts != [] {
      var init := ts[..|ts| - 1];
      EveryCallIsCarriedOut(n, clients, init, c);
      StepsKeep(n, clients, init);
      OneMove(n, Steps(Start(n, clients), init), ts[|ts| - 1], c);
    }
  }

  /** The answer that falls due for client `c` with one move. */
  function Falls(s: State, t: Move, c: nat): seq<Answer>
    requires c < |s.pc| == |s.pos|
  {
    var s' := Step(s, t);
    if |s'.hist| > |s.hist| && s'.hist[|s.hist|].client == c then
      [Answer(s'.hist[|s.hist|].ret, s'.hist[|s.hist|].out)]
    else if Breaks(s, t, c) then [Answer(-ERESTARTSYS, [])]
    else []
  }

  predicate Returns(s: State, t: Move, c: nat)
    requires c < |s.pc|
  {
    t == Move(c, Tick) && s.pc[c].Returning?
  }

  lemma OneAnswer(n: capacity, s: State, t: Move, c: nat)
    requires Inv(n, s) && c < |s.pc|
    ensures Returns(s, t, c) ==> Falls(s, t, c) == [] && Coming(Step(s, t), c) == []
    ensures !Returns(s, t, c) ==> Coming(s, c) + Falls(s, t, c) == Coming(Step(s, t), c)
  {
    if t.client < |s.pc| {
      MoveAdvances(n, s, t);
      if s.pc[t.client].Unlocking? { OnlyHolderInside(n, s, t.client); }
    }
  }

  /** And answered: the answers a client has got, and the one on its way to it, are just those due:
      what each of its calls has returned, and -ERESTARTSYS for each one interrupted. */
  lemma {:induction false} EveryCallIsAnswered(n: capacity, clients: nat, ts: seq<Move>, c: nat)
    requires c < clients
    ensures Got(n, clients, ts, c) + Coming(Steps(Start(n, clients), ts), c) == Due(n, clients, ts, c)
  {
    if ts != [] {
      var init, t := ts[..|ts| - 1], ts[|ts| - 1];
      var s := Steps(Start(n, clients), init);
      EveryCallIsAnswered(n, clients, init, c);
      StepsKeep(n, clients, init);
      OneAnswer(n, s, t, c);
    }
  }

  // No call is kept from completing.

  function Ticking(c: nat, count: nat): seq<Move> {
    seq(count, _ => Move(c, Tick))
  }

  lemma {:induction false} StepsAppend(s: State, a: seq<Move>, b: seq<Move>)
    requires |s.pc| == |s.pos|
    ensures Steps(s, a + b) == Steps(Steps(s, a), b)
  {
    if b == [] {
      assert a + b == a;
    } else {
      StepsAppend(s, a, b[..|b| - 1]);
      assert (a + b)[..|a + b| - 1] == a + b[..|b| - 1];
    }
  }

  lemma StepsOne(s: State, t: Move)
    requires |s.pc| == |s.pos|
    ensures Steps(s, [t]) == Step(s, t)
  {
    assert [t][..0] == [] && Steps(s, []) == s;
  }

  /** The call of the holder is over with these moves: the lock is free, the record has grown by it,
      and its answer is on the way. */
  ghost predicate Over(n: capacity, s: State, c: nat, ts: seq<Move>)
    requires |s.pc| == |s.pos| && c < |s.pc| && s.owner.Some?
  {
    var s' := Steps(s, ts);
    && Inv(n, s') && s'.owner == None && s'.pc[c].Returning?
    && s'.hist == s.hist + [Event(c, s.owner.value.call, s'.pc[c].ret, s'.pc[c].out)]
  }

  /** The holder of the lock comes to its end by its own steps alone. */
  lemma {:induction false} HolderFinishes(n: capacity, s: State, c: nat) returns (count: nat)
    requires Inv(n, s) && s.owner.Some? && s.owner.value.client == c
    ensures count <= Work(LocalOf(s, c)) && Over(n, s, c, Ticking(c, count))
    decreases Work(LocalOf(s, c))
  {
    if s.pc[c].Unlocking? {
      count := 1;
      ReleaseIsOver(n, s, c);
    } else {
      var t := Move(c, Tick);
      StepKeeps(n, s, t);
      HolderProgresses(n, s, t);
      BodyAdvances(n, s, c);
      var more := HolderFinishes(n, Step(s, t), c);
      count := more + 1;
      OverSooner(n, s, c, more);
    }
  }

  lemma ReleaseIsOver(n: capacity, s: State, c: nat)
    requires Inv(n, s) && c < |s.pc| && s.pc[c].Unlocking?
    ensures s.owner.Some? && Over(n, s, c, Ticking(c, 1))
  {
    var t := Move(c, Tick);
    StepKeeps(n, s, t);
    StepsOne(s, t);
    MoveAdvances(n, s, t);
    OnlyHolderInside(n, s, c);
    assert Ticking(c, 1) == [t];
  }

  lemma OverSooner(n: capacity, s: State, c: nat, more: nat)
    requires |s.pc| == |s.pos| && c < |s.pc| && s.owner.Some?
    requires var s' := Step(s, Move(c, Tick));
      s'.owner == s.owner && s'.hist == s.hist && Over(n, s', c, Ticking(c, more))
    ensures Over(n, s, c, Ticking(c, more + 1))
  {
    var t := Move(c, Tick);
    StepsOne(s, t);
    StepsAppend(s, [t], Ticking(c, more));
    assert Ticking(c, more + 1) == [t] + Ticking(c, more);
  }

  /** From any moment of any run at which the lock is free and client `c` idle, every call of it can
      be brought to its end by moves of `c` alone: it takes the lock, does its work within the
      bound, and is then the one addition to the record, with what the whole call returns. */
  lemma {:induction false} EveryCallCompletes(n: capacity, clients: nat, past: seq<Move>, c: nat, call: Call)
    returns (count: nat)
    requires c < clients
    requires var s := Steps(Start(n, clients), past); s.owner == None && s.pc[c].Idle?
    ensures var s := Steps(Start(n, clients), past); var whole := Replay(n, clients, s.hist);
      var s' := Steps(s, [Move(c, Begin(call)), Move(c, Take)] + Ticking(c, count));
      && c < |s.pos| && |whole.pos| == clients
      && count <= Work(LocalOf(s, c).(pc := First(s.ring, call)))
      && var o := Apply(n, whole.dev, whole.pos[c], call);
      && s'.owner == None && s'.pc[c] == Returning(o.ret, o.out)
      && s'.hist == s.hist + [Event(c, call, o.ret, o.out)]
      && s'.ring == RingOf(n, o.dev.log) && s'.pending == o.dev.pending && s'.pos == whole.pos[c := o.pos]
  {
    var s := Steps(Start(n, clients), past);
    StepsKeep(n, clients, past);
    var begin, take := Move(c, Begin(call)), Move(c, Take);
    var s1 := Step(s, begin);
    StepKeeps(n, s, begin);
    var s2 := Step(s1, take);
    StepKeeps(n, s1, take);
    count := HolderFinishes(n, s2, c);
    StepsOne(s, begin);
    StepsOne(s1, take);
    StepsAppend(s, [begin], [take]);
    StepsAppend(s, [begin, take], Ticking(c, count));
    assert [begin] + [take] == [begin, take];
    Completed(n, clients, past, [begin, take] + Ticking(c, count), c, call);
  }

  /** A run that ends with one more call on record, and the lock free, has come to what it does. */
  lemma Completed(n: capacity, clients: nat, past: seq<Move>, ts: seq<Move>, c: nat, call: Call)
    requires var s := Steps(Start(n, clients), past); var s' := Steps(s, ts);
      && c < |s'.pc| && s'.owner == None && s'.pc[c].Returning?
      && s'.hist == s.hist + [Event(c, call, s'.pc[c].ret, s'.pc[c].out)]
    ensures var s := Steps(Start(n, clients), past); var s' := Steps(s, ts);
      var whole := Replay(n, clients, s.hist);
      && c < clients && |whole.pos| == clients
      && var o := Apply(n, whole.dev, whole.pos[c], call);
      && s'.pc[c] == Returning(o.ret, o.out)
      && s'.ring == RingOf(n, o.dev.log) && s'.pending == o.dev.pending && s'.pos == whole.pos[c := o.pos]
  {
    var s := Steps(Start(n, clients), past);
    var s' := Steps(s, ts);
    StepsAppend(Start(n, clients), past, ts);
    RunsAsWholeCalls(n, clients, past + ts);
    var e := s'.hist[|s.hist|];
    assert s'.hist[..|s.hist|] == s.hist;
    assert Agrees(n, clients, s'.hist, |s.hist|);
    ReplayNext(n, clients, s.hist, e);
  }

  /** The bound, told from the call: a read visits each slot once, a write each pending byte, a seek
      the slots before its own. */
  lemma WorkAtMost(l: Local, call: Call)
    requires l.pc == First(l.ring, call) && l.ring.outOffs <= |l.ring.entry|
    ensures call.Read? ==> Work(l) <= |l.ring.entry| + 3
    ensures call.Write? ==> Work(l) <= |l.pending| + |call.data| + 8
    ensures call.SeekTo? ==> Work(l) <= call.cmd + 3
    ensures !call.Read? && !call.Write? && !call.SeekTo? ==> Work(l) <= 2
  {
  }

  /** No finished read, in any interleaving, has brought its caller more than it asked for, or a
      number other than what it brought. */
  lemma {:induction false} FinishedReads(n: capacity, clients: nat, ts: seq<Move>, k: nat)
    requires var s := Steps(Start(n, clients), ts); k < |s.hist| && s.hist[k].call.Read?
    ensures var e := Steps(Start(n, clients), ts).hist[k]; e.ret == |e.out| <= e.call.count
  {
    var s := Steps(Start(n, clients), ts);
    RunsAsWholeCalls(n, clients, ts);
    assert Agrees(n, clients, s.hist, k);
    var whole, e := Replay(n, clients, s.hist[..k]), s.hist[k];
    Calls.ReadBounds(n, whole.dev, whole.pos[e.client], e.call.count, e.call.fault);
  }
}
