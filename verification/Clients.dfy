/** What concurrent clients can rely on: the results about runs of whole calls, carried over to
    every interleaving of the steps of `Interleaving`. */
module Clients {
  import opened Sequences
  import opened CircularBuffers
  import opened DriverSpec
  import opened Interleaving
  import Reading
  import Skipping
  import Writing

  /** The ring holds the last `n` commands of this log, oldest first. */
  ghost predicate HoldsLast(ring: Ring<bytes>, n: capacity, log: seq<bytes>) {
    && |ring.entry| == n && ring.outOffs < n
    && var kept := Min(n, |log|);
    && forall k :: 0 <= k < kept ==> Ordered(ring)[k] == AsEntry(log[|log| - kept + k])
  }

  lemma RingHoldsLast(n: capacity, log: seq<bytes>)
    ensures HoldsLast(RingOf(n, log), n, log)
  {
    WindowRefinement(n, Entries(log));
  }

  /** Whatever the interleaving, whenever the lock is free all commands and the pending bytes are
      the accepted bytes in lock order, and the ring holds the last `n` of those commands. */
  lemma ConservedUnderInterleaving(n: capacity, clients: nat, ts: seq<Move>)
    requires Steps(Start(n, clients), ts).owner == None
    ensures var s := Steps(Start(n, clients), ts); var log := Replay(n, clients, s.hist).dev.log;
      && Flat(log) + s.pending == Flat(Writing.Chunks(clients, Requests(s.hist)))
      && NEWLINE !in s.pending
      && HoldsLast(s.ring, n, log)
  {
    var s := Steps(Start(n, clients), ts);
    var empty := System(Dev([], []), seq(clients, _ => 0));
    RunsAsWholeCalls(n, clients, ts);
    Writing.Conservation(n, empty, Requests(s.hist));
    RunCommitted(n, empty, Requests(s.hist));
    RingHoldsLast(n, Replay(n, clients, s.hist).dev.log);
  }

  /** What the calls of client `c` brought it. */
  function Outs(hist: seq<Event>, c: nat): bytes {
    if hist == [] then []
    else (if hist[0].client == c then hist[0].out else []) + Outs(hist[1..], c)
  }

  lemma {:induction false} OutsAreReceived(n: capacity, clients: nat, hist: seq<Event>, k: nat, c: nat)
    requires k <= |hist| && c < clients
    requires forall j :: 0 <= j < |hist| ==> Agrees(n, clients, hist, j)
    ensures Outs(hist[k..], c) == Reading.Received(n, Replay(n, clients, hist[..k]), Requests(hist[k..]), c)
    decreases |hist| - k
  {
    if k < |hist| {
      var e := hist[k];
      assert hist[..k + 1] == hist[..k] + [e];
      ReplayNext(n, clients, hist[..k], e);
      OutsAreReceived(n, clients, hist, k + 1, c);
      assert Agrees(n, clients, hist, k);
      assert hist[k..][1..] == hist[k + 1..];
      assert Requests(hist[k..])[1..] == Requests(hist[k + 1..]);
    } else {
      assert Requests(hist[k..]) == [];
    }
  }

  lemma ReplaySplit(n: capacity, clients: nat, hist: seq<Event>, k: nat)
    requires k <= |hist|
    ensures Replay(n, clients, hist) == Run(n, Replay(n, clients, hist[..k]), Requests(hist[k..]))
  {
    RunAppend(n, System(Dev([], []), seq(clients, _ => 0)), Requests(hist[..k]), Requests(hist[k..]));
    assert Requests(hist) == Requests(hist[..k]) + Requests(hist[k..]);
  }

  /** Reader order in every interleaving: from the `k`-th finished call on, as long as client `c`
      neither seeks nor meets the end of the data, each byte it receives is the one at its
      absolute position at the time of the read, and these positions strictly increase. */
  lemma ReaderOrderUnderInterleaving(n: capacity, clients: nat, ts: seq<Move>, k: nat, c: nat)
    requires var s := Steps(Start(n, clients), ts);
      && c < clients && k <= |s.hist|
      && var before := Replay(n, clients, s.hist[..k]);
      && before.pos[c] >= 0
      && Reading.Steady(n, before, Requests(s.hist[k..]), c)
    ensures var s := Steps(Start(n, clients), ts); var before := Replay(n, clients, s.hist[..k]);
      Reading.InOrder(Flat(Replay(n, clients, s.hist).dev.log), Reading.Absolute(n, before, c),
                      Reading.Stamps(n, before, Requests(s.hist[k..]), c), Outs(s.hist[k..], c))
  {
    var s := Steps(Start(n, clients), ts);
    RunsAsWholeCalls(n, clients, ts);
    OutsAreReceived(n, clients, s.hist, k, c);
    Reading.ReaderOrder(n, Replay(n, clients, s.hist[..k]), Requests(s.hist[k..]), c);
    ReplaySplit(n, clients, s.hist, k);
  }

  /** What a client misses, in every interleaving: from a position inside the contents on, its
      calls and everybody else's take it past stored bytes exactly when something is evicted
      while it is not at position 0; and what it receives is one piece of the log, exactly as
      long as nothing is evicted before the last byte of it. */
  lemma SkippingUnderInterleaving(n: capacity, clients: nat, ts: seq<Move>, k: nat, c: nat)
    requires var s := Steps(Start(n, clients), ts);
      && c < clients && k <= |s.hist|
      && var before := Replay(n, clients, s.hist[..k]);
      && 0 <= before.pos[c] <= |Contents(n, before.dev)|
      && Reading.Steady(n, before, Requests(s.hist[k..]), c)
    ensures var s := Steps(Start(n, clients), ts); var before := Replay(n, clients, s.hist[..k]);
      var later := Requests(s.hist[k..]); var from := Reading.Absolute(n, before, c);
      var evicts := Reading.EvictsBeforeDelivery(n, before, later, c);
      && (Skipping.SkipsInRun(n, before, later, c) <==> Skipping.EvictsBehind(n, before, later, c))
      && (Reading.Contiguous(Reading.Stamps(n, before, later, c), from) <==> !evicts)
      && (!evicts ==>
            Reading.At(Flat(Replay(n, clients, s.hist).dev.log), from, Outs(s.hist[k..], c)))
  {
    var s := Steps(Start(n, clients), ts);
    var before, later := Replay(n, clients, s.hist[..k]), Requests(s.hist[k..]);
    RunsAsWholeCalls(n, clients, ts);
    OutsAreReceived(n, clients, s.hist, k, c);
    Skipping.RunSkipsWhenEvicted(n, before, later, c);
    Reading.NothingSkipped(n, before, later, c);
    ReplaySplit(n, clients, s.hist, k);
  }

  /** Concurrent writers' lines stay whole in every interleaving exactly when every write that got
      the lock brought a newline in: the commands are then these writes, one each, in lock order;
      whenever the lock is free nothing is pending and the ring holds the last of them. */
  lemma WholeWritesUnderInterleaving(n: capacity, clients: nat, ts: seq<Move>)
    ensures var s := Steps(Start(n, clients), ts); var chunks := Writing.Chunks(clients, Requests(s.hist));
      && (Replay(n, clients, s.hist).dev == Dev(chunks, []) <==> forall k :: 0 <= k < |chunks| ==> NEWLINE in chunks[k])
      && (s.owner == None && (forall k :: 0 <= k < |chunks| ==> NEWLINE in chunks[k]) ==>
            s.pending == [] && HoldsLast(s.ring, n, chunks))
  {
    var s := Steps(Start(n, clients), ts);
    var empty := System(Dev([], []), seq(clients, _ => 0));
    var chunks := Writing.Chunks(clients, Requests(s.hist));
    RunsAsWholeCalls(n, clients, ts);
    Writing.WholeWrites(n, empty, Requests(s.hist));
    assert empty.dev.log + chunks == chunks;
    RingHoldsLast(n, chunks);
  }
}
