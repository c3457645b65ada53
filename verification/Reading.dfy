/** What a reader receives, over whole runs in which other files are written and read. */
module Reading {
  import opened Sequences
  import opened CircularBuffers
  import opened DriverSpec
  import Writing

  /** How many bytes have been evicted so far. */
  function Gone(n: nat, dev: Dev): nat {
    |Flat(Evicted(n, dev.log))|
  }

  /** The absolute position of file `c`: counted from the first byte ever committed. */
  function Absolute(n: nat, s: System, c: nat): nat
    requires c < |s.pos|
  {
    Gone(n, s.dev) + AsSizeT(s.pos[c])
  }

  /** What one request brings file `c`. */
  function Delivery(n: capacity, s: System, q: Request, c: nat): bytes
    requires c < |s.pos|
  {
    if q.client == c then Apply(n, s.dev, s.pos[c], q.call).out else []
  }

  /** All bytes file `c` receives in a run. */
  function Received(n: capacity, s: System, qs: seq<Request>, c: nat): bytes
    requires c < |s.pos|
    decreases |qs|
  {
    if qs == [] then [] else Delivery(n, s, qs[0], c) + Received(n, Serve(n, s, qs[0]), qs[1..], c)
  }

  /** And the absolute position each of them was read at. */
  function Stamps(n: capacity, s: System, qs: seq<Request>, c: nat): (stamps: seq<nat>)
    requires c < |s.pos|
    ensures |stamps| == |Received(n, s, qs, c)|
    decreases |qs|
  {
    if qs == [] then []
    else
      seq(|Delivery(n, s, qs[0], c)|, j => Absolute(n, s, c) + j) + Stamps(n, Serve(n, s, qs[0]), qs[1..], c)
  }

  /** File `c` is not repositioned by `q`: no seek, and no read at the end of the data. */
  ghost predicate Keeps(n: capacity, s: System, q: Request, c: nat)
    requires c < |s.pos|
  {
    q.client == c ==>
      match q.call
      case Read(_, _) => Rest(Window(n, s.dev.log), AsSizeT(s.pos[c])) != []
      case SeekTo(_, _) => false
      case Llseek(_) => false
      case _ => true
  }

  ghost predicate Steady(n: capacity, s: System, qs: seq<Request>, c: nat)
    requires c < |s.pos|
    decreases |qs|
  {
    qs != [] ==> Keeps(n, s, qs[0], c) && Steady(n, Serve(n, s, qs[0]), qs[1..], c)
  }

  /** Evicted bytes stay evicted, and the data as a whole only grows at its end. */
  lemma {:induction false} OnlyGrows(n: capacity, s: System, q: Request)
    ensures Gone(n, s.dev) <= Gone(n, Serve(n, s, q).dev)
    ensures Flat(s.dev.log) <= Flat(Serve(n, s, q).dev.log)
  {
    var log, log' := s.dev.log, Serve(n, s, q).dev.log;
    if log' != log {
      FlatAppend(log, log'[|log|..]);
      assert log' == log + log'[|log|..];
      var old', new' := Evicted(n, log), Evicted(n, log');
      FlatAppend(old', new'[|old'|..]);
      assert new' == old' + new'[|old'|..];
    }
  }

  /** `out` stands in `all` at position `a`. */
  ghost predicate At(all: bytes, a: nat, out: bytes) {
    out != [] ==> a + |out| <= |all| && all[a..a + |out|] == out
  }

  lemma AtInTail(front: bytes, tail: bytes, p: nat, out: bytes)
    requires p <= |tail| && out <= tail[p..]
    ensures At(front + tail, |front| + p, out)
  {
    assert tail[p..][..|out|] == tail[p..p + |out|];
  }

  lemma AtGrows(all: bytes, more: bytes, a: nat, out: bytes)
    requires all <= more && At(all, a, out)
    ensures At(more, a, out)
  {
  }

  /** `out` was read at strictly increasing positions of `all`, from `from` on. */
  ghost predicate InOrder(all: bytes, from: nat, stamps: seq<nat>, out: bytes) {
    && |stamps| == |out|
    && (forall i :: 0 <= i < |stamps| ==> from <= stamps[i] < |all|)
    && (forall i, j :: 0 <= i < j < |stamps| ==> stamps[i] < stamps[j])
    && (forall i :: 0 <= i < |stamps| ==> out[i] == all[stamps[i]])
  }

  lemma InOrderJoin(all: bytes, a: nat, out: bytes, from: nat, stamps: seq<nat>, next: bytes)
    requires At(all, a, out) && a + |out| <= from && InOrder(all, from, stamps, next)
    ensures InOrder(all, a, seq(|out|, j => a + j) + stamps, out + next)
  {
    var both := seq(|out|, j => a + j) + stamps;
    forall i | 0 <= i < |both|
      ensures a <= both[i] < |all| && (out + next)[i] == all[both[i]]
    {
      if i < |out| {
        assert all[a..a + |out|][i] == all[a + i];
      } else {
        assert both[i] == stamps[i - |out|];
      }
    }
  }

  /** What a read delivers are the bytes of the log at the reader's absolute position. */
  lemma DeliveryFromLog(n: capacity, s: System, q: Request, c: nat)
    requires c < |s.pos| && s.pos[c] >= 0 && Keeps(n, s, q, c)
    ensures At(Flat(s.dev.log), Absolute(n, s, c), Delivery(n, s, q, c))
    ensures Serve(n, s, q).pos[c] == s.pos[c] + |Delivery(n, s, q, c)|
  {
    var w, p, out := Window(n, s.dev.log), s.pos[c], Delivery(n, s, q, c);
    FlatLog(n, s.dev);
    RestInFlat(w, p);
    if out != [] {
      assert out <= Rest(w, p);
      AtInTail(Flat(Evicted(n, s.dev.log)), Flat(w), p, out);
    }
  }

  lemma FlatLog(n: nat, dev: Dev)
    ensures Flat(dev.log) == Flat(Evicted(n, dev.log)) + Contents(n, dev)
  {
    WindowSplit(n, dev.log);
    FlatAppend(Evicted(n, dev.log), Window(n, dev.log));
  }

  lemma {:induction false} GoneGrows(n: capacity, s: System, qs: seq<Request>)
    ensures Gone(n, s.dev) <= Gone(n, Run(n, s, qs).dev)
    ensures Flat(s.dev.log) <= Flat(Run(n, s, qs).dev.log)
    decreases |qs|
  {
    if qs != [] {
      OnlyGrows(n, s, qs[0]);
      GoneGrows(n, Serve(n, s, qs[0]), qs[1..]);
    }
  }

  /** Reader order under eviction: as long as file `c` neither seeks nor meets the end of the
      data, the bytes it receives come from strictly increasing positions of everything ever
      committed, whatever the other files do in between.  It may skip bytes (its absolute
      position moves by the bytes received and the bytes evicted, no more), and not only
      evicted ones; it never sees a byte twice or out of order. */
  lemma {:induction false} ReaderOrder(n: capacity, s: System, qs: seq<Request>, c: nat)
    requires c < |s.pos| && s.pos[c] >= 0 && Steady(n, s, qs, c)
    ensures InOrder(Flat(Run(n, s, qs).dev.log), Absolute(n, s, c), Stamps(n, s, qs, c), Received(n, s, qs, c))
    ensures Run(n, s, qs).pos[c] == s.pos[c] + |Received(n, s, qs, c)|
    decreases |qs|
  {
    if qs != [] {
      var s', out := Serve(n, s, qs[0]), Delivery(n, s, qs[0], c);
      var all := Flat(Run(n, s, qs).dev.log);
      OnlyGrows(n, s, qs[0]);
      GoneGrows(n, s', qs[1..]);
      DeliveryFromLog(n, s, qs[0], c);
      AtGrows(Flat(s.dev.log), all, Absolute(n, s, c), out);
      ReaderOrder(n, s', qs[1..], c);
      InOrderJoin(all, Absolute(n, s, c), out, Absolute(n, s', c),
                  Stamps(n, s', qs[1..], c), Received(n, s', qs[1..], c));
    }
  }

  predicate Evicts(n: capacity, s: System, q: Request) {
    Gone(n, Serve(n, s, q).dev) > Gone(n, s.dev)
  }

  /** Only a write evicts, and what it commits is then the last of the contents. */
  lemma EvictionCommits(n: capacity, s: System, q: Request)
    requires Evicts(n, s, q)
    ensures q.client < |s.pos| && q.call.Write?
    ensures var dev' := Serve(n, s, q).dev;
      && |Flat(dev'.log)| > |Flat(s.dev.log)|
      && |Contents(n, dev')| > 0
  {
    Writing.ServeDev(n, s, q);
    var dev' := Serve(n, s, q).dev;
    var line := dev'.log[|s.dev.log|];
    assert NEWLINE in line;
    Writing.FlatLast(s.dev.log, line);
    var w := Window(n, dev'.log);
    assert w == w[..|w| - 1] + [line];
    Writing.FlatLast(w[..|w| - 1], line);
  }

  /** Positions that follow one another, from `from` on. */
  ghost predicate Contiguous(stamps: seq<nat>, from: nat) {
    forall j :: 0 <= j < |stamps| ==> stamps[j] == from + j
  }

  /** Something is evicted and file `c` still receives bytes after that. */
  predicate EvictsBeforeDelivery(n: capacity, s: System, qs: seq<Request>, c: nat)
    requires c < |s.pos|
    decreases |qs|
  {
    qs != [] && var s' := Serve(n, s, qs[0]);
      || (Evicts(n, s, qs[0]) && Received(n, s', qs[1..], c) != [])
      || EvictsBeforeDelivery(n, s', qs[1..], c)
  }

  lemma {:induction false} NoDeliveryLater(n: capacity, s: System, qs: seq<Request>, c: nat)
    requires c < |s.pos| && Received(n, s, qs, c) == []
    ensures !EvictsBeforeDelivery(n, s, qs, c)
    decreases |qs|
  {
    if qs != [] { NoDeliveryLater(n, Serve(n, s, qs[0]), qs[1..], c); }
  }

  lemma ContiguousJoin(from: nat, count: nat, stamps: seq<nat>)
    ensures Contiguous(seq(count, j => from + j) + stamps, from) <==> Contiguous(stamps, from + count)
  {
    var all := seq(count, j => from + j) + stamps;
    if Contiguous(all, from) {
      forall j | 0 <= j < |stamps|
        ensures stamps[j] == from + count + j
      {
        assert stamps[j] == all[count + j];
      }
    }
  }

  /** What a reader receives after an eviction does not follow on where it stood before it. */
  lemma BrokenByEviction(n: capacity, s: System, q: Request, qs: seq<Request>, c: nat)
    requires c < |s.pos| && s.pos[c] >= 0 && Evicts(n, s, q)
    requires var s' := Serve(n, s, q); s'.pos[c] >= 0 && Steady(n, s', qs, c)
    ensures var s' := Serve(n, s, q);
      && Delivery(n, s, q, c) == []
      && (Contiguous(Stamps(n, s', qs, c), Absolute(n, s, c)) <==> Received(n, s', qs, c) == [])
      && (Received(n, s', qs, c) == [] ==> !EvictsBeforeDelivery(n, s', qs, c))
  {
    var s' := Serve(n, s, q);
    EvictionCommits(n, s, q);
    ReaderOrder(n, s', qs, c);
    var stamps := Stamps(n, s', qs, c);
    if stamps == [] {
      NoDeliveryLater(n, s', qs, c);
    } else {
      assert stamps[0] >= Absolute(n, s', c) > Absolute(n, s, c);
    }
  }

  lemma UnbrokenNext(n: capacity, s: System, q: Request, qs: seq<Request>, c: nat)
    requires c < |s.pos| && s.pos[c] >= 0 && Keeps(n, s, q, c)
    requires var s' := Serve(n, s, q);
      && s'.pos[c] == s.pos[c] + |Delivery(n, s, q, c)| && Steady(n, s', qs, c)
      && (Contiguous(Stamps(n, s', qs, c), Absolute(n, s', c)) <==> !EvictsBeforeDelivery(n, s', qs, c))
    ensures var s' := Serve(n, s, q); var from, count := Absolute(n, s, c), |Delivery(n, s, q, c)|;
      Contiguous(seq(count, j => from + j) + Stamps(n, s', qs, c), from) <==>
        !(Evicts(n, s, q) && Received(n, s', qs, c) != []) && !EvictsBeforeDelivery(n, s', qs, c)
  {
    var s' := Serve(n, s, q);
    ContiguousJoin(Absolute(n, s, c), |Delivery(n, s, q, c)|, Stamps(n, s', qs, c));
    if Evicts(n, s, q) {
      BrokenByEviction(n, s, q, qs, c);
    } else {
      OnlyGrows(n, s, q);
    }
  }

  lemma {:induction false} StampsUnbroken(n: capacity, s: System, qs: seq<Request>, c: nat)
    requires c < |s.pos| && s.pos[c] >= 0 && Steady(n, s, qs, c)
    ensures Contiguous(Stamps(n, s, qs, c), Absolute(n, s, c)) <==> !EvictsBeforeDelivery(n, s, qs, c)
    decreases |qs|
  {
    if qs != [] {
      DeliveryFromLog(n, s, qs[0], c);
      StampsUnbroken(n, Serve(n, s, qs[0]), qs[1..], c);
      UnbrokenNext(n, s, qs[0], qs[1..], c);
    }
  }

  lemma InOnePiece(all: bytes, from: nat, stamps: seq<nat>, out: bytes)
    requires InOrder(all, from, stamps, out) && Contiguous(stamps, from)
    ensures At(all, from, out)
  {
    if out != [] {
      assert stamps[|out| - 1] == from + |out| - 1;
      forall i | 0 <= i < |out|
        ensures all[from..from + |out|][i] == out[i]
      {
        assert stamps[i] == from + i;
      }
    }
  }

  /** What a reader receives is read at positions that follow one another, from its absolute
      position on, exactly when nothing is evicted before the last byte it receives; and then
      it is one piece of the log. */
  lemma {:induction false} NothingSkipped(n: capacity, s: System, qs: seq<Request>, c: nat)
    requires c < |s.pos| && s.pos[c] >= 0 && Steady(n, s, qs, c)
    ensures Contiguous(Stamps(n, s, qs, c), Absolute(n, s, c)) <==> !EvictsBeforeDelivery(n, s, qs, c)
    ensures !EvictsBeforeDelivery(n, s, qs, c) ==>
      At(Flat(Run(n, s, qs).dev.log), Absolute(n, s, c), Received(n, s, qs, c))
  {
    StampsUnbroken(n, s, qs, c);
    ReaderOrder(n, s, qs, c);
    if !EvictsBeforeDelivery(n, s, qs, c) {
      InOnePiece(Flat(Run(n, s, qs).dev.log), Absolute(n, s, c), Stamps(n, s, qs, c), Received(n, s, qs, c));
    }
  }

  lemma {:induction false} NoEviction(n: capacity, s: System, qs: seq<Request>, c: nat)
    requires c < |s.pos| && Gone(n, Run(n, s, qs).dev) == Gone(n, s.dev)
    ensures !EvictsBeforeDelivery(n, s, qs, c)
    decreases |qs|
  {
    if qs != [] {
      OnlyGrows(n, s, qs[0]);
      GoneGrows(n, Serve(n, s, qs[0]), qs[1..]);
      NoEviction(n, Serve(n, s, qs[0]), qs[1..], c);
    }
  }

  /** Reading to the end while others write: if nothing is evicted meanwhile, the reader has
      received, once a read comes back empty at the end of the data, the contents of that
      moment from its starting position on; and it stands at 0 again. */
  lemma ReadToEndAmongWrites(n: capacity, s: System, qs: seq<Request>, c: nat, count: nat, fault: nat)
    requires c < |s.pos| && 0 <= s.pos[c] <= |Contents(n, s.dev)|
    requires Steady(n, s, qs, c) && Gone(n, Run(n, s, qs).dev) == Gone(n, s.dev)
    requires Rest(Window(n, Run(n, s, qs).dev.log), AsSizeT(Run(n, s, qs).pos[c])) == []
    ensures var last := Run(n, s, qs);
      && s.pos[c] <= |Contents(n, last.dev)|
      && Received(n, s, qs, c) == Contents(n, last.dev)[s.pos[c]..]
      && ReadCall(n, last.dev, last.pos[c], count, fault) == Outcome(last.dev, 0, 0, [])
  {
    var last := Run(n, s, qs);
    ReaderOrder(n, s, qs, c);
    GoneGrows(n, s, qs);
    ContentsGrow(n, s.dev, last.dev);
    FlatLog(n, last.dev);
    NoEviction(n, s, qs, c);
    NothingSkipped(n, s, qs, c);
    RestInFlat(Window(n, last.dev.log), last.pos[c]);
    WholeTail(Flat(Evicted(n, last.dev.log)), Contents(n, last.dev), s.pos[c], Received(n, s, qs, c));
  }

  lemma ContentsGrow(n: nat, dev: Dev, dev': Dev)
    requires Flat(dev.log) <= Flat(dev'.log) && Gone(n, dev) == Gone(n, dev')
    ensures |Contents(n, dev)| <= |Contents(n, dev')|
  {
    FlatLog(n, dev);
    FlatLog(n, dev');
  }

  lemma WholeTail(front: bytes, tail: bytes, p: nat, out: bytes)
    requires p <= |tail| <= p + |out|
    requires At(front + tail, |front| + p, out)
    ensures out == tail[p..]
  {
    if out != [] {
      assert (front + tail)[|front| + p..|front| + p + |out|] == tail[p..];
    }
  }

  /** Reads by one file with nothing in between, until one meets the end of the data. */
  datatype Drained = Drained(out: bytes, calls: nat, pos: int, atEnd: bool)

  function Drain(n: nat, dev: Dev, pos: int, tries: seq<(nat, nat)>): Drained
    decreases |tries|
  {
    if tries == [] then Drained([], 0, pos, false)
    else
      var o := ReadCall(n, dev, pos, tries[0].0, tries[0].1);
      if Rest(Window(n, dev.log), AsSizeT(pos)) == [] then Drained([], 1, o.pos, true)
      else
        var d := Drain(n, dev, o.pos, tries[1..]);
        d.(out := o.out + d.out, calls := d.calls + 1)
  }

  /** Every read before the end gets at least one byte across. */
  ghost predicate Progressing(n: nat, dev: Dev, pos: int, tries: seq<(nat, nat)>)
    decreases |tries|
  {
    tries != [] && Rest(Window(n, dev.log), AsSizeT(pos)) != [] ==>
      var o := ReadCall(n, dev, pos, tries[0].0, tries[0].1);
      o.ret > 0 && Progressing(n, dev, o.pos, tries[1..])
  }

  /** Read to the end: with nothing written in between, reads of any sizes that make progress
      deliver exactly the contents from the starting position on, then come back empty and at
      0, after no more calls than there are bytes, and one. */
  lemma {:induction false} ReadToEnd(n: nat, dev: Dev, pos: int, tries: seq<(nat, nat)>)
    requires 0 <= pos <= |Contents(n, dev)|
    requires Progressing(n, dev, pos, tries) && |tries| > |Contents(n, dev)| - pos
    ensures var d := Drain(n, dev, pos, tries);
      && d.atEnd && d.pos == 0
      && d.out == Contents(n, dev)[pos..]
      && d.calls <= |Contents(n, dev)| - pos + 1
    decreases |tries|
  {
    var w := Window(n, dev.log);
    RestInFlat(w, pos);
    var o := ReadCall(n, dev, pos, tries[0].0, tries[0].1);
    if pos < |Contents(n, dev)| {
      assert o.out <= Flat(w)[pos..];
      ReadToEnd(n, dev, o.pos, tries[1..]);
      assert Flat(w)[pos..] == o.out + Flat(w)[o.pos..];
    }
  }
}
