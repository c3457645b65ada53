/** What a reader misses when commands are evicted while it reads (aesd-char-driver/main.c:334-358,
    aesd-circular-buffer.c:66-83).

    `f_pos` stays where it is while the contents slide under it.  So a reader that has come some
    way does not lose the evicted bytes, which it may have had already, but as many of those it
    would have read next, although these are still stored. */
module Skipping {
  import opened Sequences
  import opened CircularBuffers
  import opened DriverSpec
  import Reading
  import Seeking

  /** Request `q` takes file `c` past byte `a` of the log without delivering it, and the byte is
      among the contents afterwards. */
  ghost predicate PassesOver(n: capacity, s: System, q: Request, c: nat, a: nat)
    requires c < |s.pos|
  {
    var s' := Serve(n, s, q);
    && Reading.Absolute(n, s, c) + |Reading.Delivery(n, s, q, c)| <= a < Reading.Absolute(n, s', c)
    && Reading.Gone(n, s'.dev) <= a < |Flat(s'.dev.log)|
  }

  ghost predicate SkipsStored(n: capacity, s: System, q: Request, c: nat)
    requires c < |s.pos|
  {
    exists a: nat :: PassesOver(n, s, q, c, a)
  }

  /** One request, whoever makes it: it takes a reader past bytes that are still stored exactly
      when it evicts something while the reader stands behind position 0 and not beyond all
      the data, which a reader that stands inside the contents never does. */
  lemma SkipsWhenEvicted(n: capacity, s: System, q: Request, c: nat)
    requires c < |s.pos| && s.pos[c] >= 0 && Reading.Keeps(n, s, q, c)
    ensures SkipsStored(n, s, q, c) <==>
      Reading.Evicts(n, s, q) && s.pos[c] > 0 && Reading.Absolute(n, s, c) < |Flat(Serve(n, s, q).dev.log)|
    ensures s.pos[c] <= |Contents(n, s.dev)| ==>
      (SkipsStored(n, s, q, c) <==> Reading.Evicts(n, s, q) && s.pos[c] > 0)
  {
    Reading.OnlyGrows(n, s, q);
    Reading.DeliveryFromLog(n, s, q, c);
    Reading.FlatLog(n, s.dev);
    if Reading.Evicts(n, s, q) {
      Reading.EvictionCommits(n, s, q);
      if s.pos[c] > 0 && Reading.Absolute(n, s, c) < |Flat(Serve(n, s, q).dev.log)| { FirstSkipped(n, s, q, c); }
    }
  }

  lemma FirstSkipped(n: capacity, s: System, q: Request, c: nat)
    requires c < |s.pos| && s.pos[c] > 0 && Reading.Evicts(n, s, q) && Reading.Keeps(n, s, q, c)
    requires Reading.Absolute(n, s, c) < |Flat(Serve(n, s, q).dev.log)|
    ensures SkipsStored(n, s, q, c)
  {
    var s' := Serve(n, s, q);
    Reading.EvictionCommits(n, s, q);
    Reading.FlatLog(n, s'.dev);
    var from, gone := Reading.Absolute(n, s, c), Reading.Gone(n, s'.dev);
    assert PassesOver(n, s, q, c, if from < gone then gone else from);
  }

  /** Some request of the run takes file `c` past stored bytes. */
  ghost predicate SkipsInRun(n: capacity, s: System, qs: seq<Request>, c: nat)
    requires c < |s.pos|
    decreases |qs|
  {
    qs != [] && (SkipsStored(n, s, qs[0], c) || SkipsInRun(n, Serve(n, s, qs[0]), qs[1..], c))
  }

  /** Something is evicted while file `c` is not at position 0. */
  predicate EvictsBehind(n: capacity, s: System, qs: seq<Request>, c: nat)
    requires c < |s.pos|
    decreases |qs|
  {
    qs != [] && ((Reading.Evicts(n, s, qs[0]) && s.pos[c] > 0) || EvictsBehind(n, Serve(n, s, qs[0]), qs[1..], c))
  }

  /** Without such an eviction the reader stays inside the contents. */
  lemma StaysInside(n: capacity, s: System, q: Request, c: nat)
    requires c < |s.pos| && 0 <= s.pos[c] <= |Contents(n, s.dev)|
    requires Reading.Keeps(n, s, q, c) && !(Reading.Evicts(n, s, q) && s.pos[c] > 0)
    ensures 0 <= Serve(n, s, q).pos[c] <= |Contents(n, Serve(n, s, q).dev)|
  {
    var s' := Serve(n, s, q);
    Reading.OnlyGrows(n, s, q);
    Reading.DeliveryFromLog(n, s, q, c);
    Reading.FlatLog(n, s.dev);
    Reading.FlatLog(n, s'.dev);
    if Reading.Evicts(n, s, q) { Reading.EvictionCommits(n, s, q); }
  }

  /** Over a whole run a reader that starts inside the contents, does not seek and does not meet
      the end of the data misses no stored byte exactly when all evictions happen while it is
      at position 0. */
  lemma {:induction false} RunSkipsWhenEvicted(n: capacity, s: System, qs: seq<Request>, c: nat)
    requires c < |s.pos| && 0 <= s.pos[c] <= |Contents(n, s.dev)| && Reading.Steady(n, s, qs, c)
    ensures SkipsInRun(n, s, qs, c) <==> EvictsBehind(n, s, qs, c)
    decreases |qs|
  {
    if qs != [] {
      SkipsWhenEvicted(n, s, qs[0], c);
      if !(Reading.Evicts(n, s, qs[0]) && s.pos[c] > 0) {
        StaysInside(n, s, qs[0], c);
        RunSkipsWhenEvicted(n, Serve(n, s, qs[0]), qs[1..], c);
      }
    }
  }

  /** The end of the data can come early, too: a reader that has read everything finds nothing of
      what is committed next exactly when at least as many bytes are evicted for it. */
  lemma EndComesEarly(n: capacity, s: System, q: Request, c: nat, count: nat, fault: nat)
    requires c < |s.pos| && c != q.client && s.pos[c] == |Contents(n, s.dev)|
    ensures var s' := Serve(n, s, q);
      var evicted := Reading.Gone(n, s'.dev) - Reading.Gone(n, s.dev);
      && s'.pos[c] == s.pos[c]
      && (Rest(Window(n, s'.dev.log), s.pos[c]) == [] <==> evicted >= |Flat(s'.dev.log)| - |Flat(s.dev.log)|)
      && (evicted >= |Flat(s'.dev.log)| - |Flat(s.dev.log)| ==>
            ReadCall(n, s'.dev, s'.pos[c], count, fault) == Outcome(s'.dev, 0, 0, []))
  {
    var s' := Serve(n, s, q);
    Reading.FlatLog(n, s.dev);
    Reading.FlatLog(n, s'.dev);
    RestInFlat(Window(n, s'.dev.log), s.pos[c]);
  }

  /** For instance, in the driver's ring of ten, with "A\n" to "J\n" stored and the first command
      read, another file commits "K\n".  Only "A\n" is evicted, and the next read delivers "C\n",
      although "B\n" is still stored. */
  lemma {:induction false} StoredCommandSkipped()
    ensures var s := System(Dev(Seeking.Commands(10), []), [0, 0]);
      var read := Request(0, Read(2, 0));
      var s' := Run(10, s, [read, Request(1, Write([75, NEWLINE], 0))]);
      && Reading.Delivery(10, s, read, 0) == [65, NEWLINE]
      && s'.dev == Dev(Seeking.Commands(11), [])
      && Window(10, s'.dev.log)[0] == [66, NEWLINE]
      && Reading.Delivery(10, s', read, 0) == [67, NEWLINE]
  {
    var s := System(Dev(Seeking.Commands(10), []), [0, 0]);
    var read, commit := Request(0, Read(2, 0)), Request(1, Write([75, NEWLINE], 0));
    ReadsFirst(10, Seeking.Commands(10), 2);
    assert Serve(10, s, read) == System(s.dev, [2, 0]);
    var line: bytes := [75, NEWLINE];
    assert Accepted(line, 0) == line && [] + line == line;
    assert Seeking.Commands(10) + [line] == Seeking.Commands(11);
    assert Serve(10, System(s.dev, [2, 0]), commit) == System(Dev(Seeking.Commands(11), []), [2, 0]);
    RunOfTwo(10, s, read, commit);
    ReadsSecond(10, Seeking.Commands(11), 2);
  }

  lemma RunOfTwo(n: capacity, s: System, a: Request, b: Request)
    ensures Run(n, s, [a, b]) == Serve(n, Serve(n, s, a), b)
  {
    assert [a, b][1..] == [b] && [b][1..] == [];
    assert Run(n, s, [a, b]) == Run(n, Serve(n, s, a), [b]);
    assert Run(n, Serve(n, s, a), [b]) == Run(n, Serve(n, Serve(n, s, a), b), []);
  }

  /** A read from where the oldest command in the window ends. */
  lemma ReadsSecond(n: capacity, log: seq<bytes>, count: nat)
    requires var w := Window(n, log); |w| > 1 && 0 < |w[1]| <= count
    ensures var w := Window(n, log);
      ReadCall(n, Dev(log, []), |w[0]|, count, 0).out == w[1]
  {
    var w := Window(n, log);
    assert Rest(w, |w[0]|) == Rest(w[1..], 0) == w[1][0..] == w[1];
  }

  lemma ReadsFirst(n: capacity, log: seq<bytes>, count: nat)
    requires 0 < |log| <= n && 0 < |log[0]| <= count
    ensures ReadCall(n, Dev(log, []), 0, count, 0) == Outcome(Dev(log, []), |log[0]|, |log[0]|, log[0])
  {
    var w := Window(n, log);
    assert Rest(w, 0) == w[0][0..] == log[0];
  }
}
