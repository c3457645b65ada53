/** What becomes of written bytes, over whole runs of calls from any number of open files. */
module Writing {
  import opened Sequences
  import opened CircularBuffers
  import opened DriverSpec

  /** The bytes each write of the run got into the driver, in order.  `files` is the number of
      open files. */
  function Chunks(files: nat, qs: seq<Request>): seq<bytes> {
    if qs == [] then []
    else
      var before, q := Chunks(files, qs[..|qs| - 1]), qs[|qs| - 1];
      if q.client < files && q.call.Write? then before + [Accepted(q.call.data, q.call.fault)] else before
  }

  /** The chunks are those of the writes of open files, one each in order, and of nothing else. */
  lemma {:induction false} ChunksAre(files: nat, qs: seq<Request>, q: Request, more: seq<Request>)
    ensures Chunks(files, qs + [q] + more) == Chunks(files, qs) +
      (if q.client < files && q.call.Write? then [Accepted(q.call.data, q.call.fault)] else []) + Chunks(files, more)
    decreases |more|
  {
    var chunk := if q.client < files && q.call.Write? then [Accepted(q.call.data, q.call.fault)] else [];
    if more == [] {
      assert qs + [q] + more == qs + [q] && (qs + [q])[..|qs|] == qs;
      assert Chunks(files, qs) + chunk + [] == Chunks(files, qs) + chunk;
    } else {
      var init := more[..|more| - 1];
      ChunksAre(files, qs, q, init);
      assert (qs + [q] + more)[..|qs + [q] + more| - 1] == qs + [q] + init;
    }
  }

  lemma FlatLast<T>(blocks: seq<seq<T>>, last: seq<T>)
    ensures Flat(blocks + [last]) == Flat(blocks) + last
  {
    FlatAppend(blocks, [last]);
    assert Flat([last]) == last;
  }

  lemma ServeDev(n: capacity, s: System, q: Request)
    ensures Serve(n, s, q).dev ==
      if q.client < |s.pos| && q.call.Write? then WriteCall(s.dev, 0, q.call.data, q.call.fault).dev else s.dev
  {
  }

  lemma WriteConserves(dev: Dev, data: bytes, fault: nat)
    ensures var dev' := WriteCall(dev, 0, data, fault).dev;
      Flat(dev'.log) + dev'.pending == Flat(dev.log) + dev.pending + Accepted(data, fault)
  {
    var accepted := Accepted(data, fault);
    FlatLast(dev.log, dev.pending + accepted);
    assert Flat(dev.log) + (dev.pending + accepted) == Flat(dev.log) + dev.pending + accepted;
  }

  /** Nothing is lost, made up or reordered on the way in: all commands ever committed and the
      pending bytes, end to end, are the accepted bytes in order. */
  lemma {:induction false} Conservation(n: capacity, s: System, qs: seq<Request>)
    ensures var dev := Run(n, s, qs).dev;
      Flat(dev.log) + dev.pending == Flat(s.dev.log) + s.dev.pending + Flat(Chunks(|s.pos|, qs))
    decreases |qs|
  {
    if qs != [] {
      var init, q := qs[..|qs| - 1], qs[|qs| - 1];
      var before := Run(n, s, init);
      Conservation(n, s, init);
      RunLast(n, s, qs);
      ServeDev(n, before, q);
      if q.client < |s.pos| && q.call.Write? {
        var accepted := Accepted(q.call.data, q.call.fault);
        FlatLast(Chunks(|s.pos|, init), accepted);
        WriteConserves(before.dev, q.call.data, q.call.fault);
        var start, chunks := Flat(s.dev.log) + s.dev.pending, Flat(Chunks(|s.pos|, init));
        assert start + chunks + accepted == start + (chunks + accepted);
      }
    }
  }

  /** Whole writes, gathered into commands: one group for each committed command, and the
      writes still pending. */
  datatype Grouping = Grouping(done: seq<seq<bytes>>, open: seq<bytes>)

  ghost predicate NoNewline(chunks: seq<bytes>) {
    forall k :: 0 <= k < |chunks| ==> NEWLINE !in chunks[k]
  }

  /** A command's writes: only the last one has a newline in it. */
  ghost predicate OneCommand(chunks: seq<bytes>) {
    |chunks| > 0 && NEWLINE in chunks[|chunks| - 1] && NoNewline(chunks[..|chunks| - 1])
  }

  ghost predicate Groups(g: Grouping, chunks: seq<bytes>) {
    && Flat(g.done) + g.open == chunks
    && (forall k :: 0 <= k < |g.done| ==> OneCommand(g.done[k]))
    && NoNewline(g.open)
  }

  /** The log and pending entry that a grouping stands for. */
  ghost predicate MadeOf(g: Grouping, dev: Dev) {
    && |dev.log| == |g.done|
    && (forall k :: 0 <= k < |g.done| ==> dev.log[k] == Flat(g.done[k]))
    && dev.pending == Flat(g.open)
  }

  /** Groups are closed by the first write with a newline in it. */
  function Gather(g: Grouping, chunk: bytes): Grouping {
    if NEWLINE in chunk then Grouping(g.done + [g.open + [chunk]], [])
    else g.(open := g.open + [chunk])
  }

  lemma GatherGroups(g: Grouping, chunks: seq<bytes>, chunk: bytes)
    requires Groups(g, chunks)
    ensures Groups(Gather(g, chunk), chunks + [chunk])
  {
    if NEWLINE in chunk {
      FlatLast(g.done, g.open + [chunk]);
      assert (g.open + [chunk])[..|g.open|] == g.open;
      assert OneCommand(g.open + [chunk]);
    }
  }

  lemma FlatNoNewline(chunks: seq<bytes>)
    requires NoNewline(chunks)
    ensures NEWLINE !in Flat(chunks)
  {
    if chunks != [] { FlatNoNewline(chunks[1..]); }
  }

  lemma GatherCommits(g: Grouping, dev: Dev, data: bytes, fault: nat)
    requires MadeOf(g, dev) && NoNewline(g.open)
    ensures MadeOf(Gather(g, Accepted(data, fault)), WriteCall(dev, 0, data, fault).dev)
  {
    FlatLast(g.open, Accepted(data, fault));
    FlatNoNewline(g.open);
  }

  /** Each command is a run of whole writes of which only the last contains a newline; so are
      the pending bytes, without such a last one. */
  lemma {:induction false} CommandsAreRunsOfWrites(n: capacity, s: System, qs: seq<Request>) returns (g: Grouping)
    requires s.dev == Dev([], [])
    ensures Groups(g, Chunks(|s.pos|, qs))
    ensures MadeOf(g, Run(n, s, qs).dev)
    decreases |qs|
  {
    if qs == [] {
      return Grouping([], []);
    }
    var init, q := qs[..|qs| - 1], qs[|qs| - 1];
    g := CommandsAreRunsOfWrites(n, s, init);
    RunLast(n, s, qs);
    ServeDev(n, Run(n, s, init), q);
    if q.client < |s.pos| && q.call.Write? {
      GatherGroups(g, Chunks(|s.pos|, init), Accepted(q.call.data, q.call.fault));
      GatherCommits(g, Run(n, s, init).dev, q.call.data, q.call.fault);
      g := Gather(g, Accepted(q.call.data, q.call.fault));
    }
  }

  /** Writes of several files do not get mixed up exactly when each of them ends up with a newline:
      then every write is a command of its own, in order, and nothing is left pending. */
  lemma {:induction false} WholeWrites(n: capacity, s: System, qs: seq<Request>)
    requires Committed(s.dev) && s.dev.pending == []
    ensures var chunks := Chunks(|s.pos|, qs);
      Run(n, s, qs).dev == Dev(s.dev.log + chunks, []) <==> forall k :: 0 <= k < |chunks| ==> NEWLINE in chunks[k]
  {
    var chunks := Chunks(|s.pos|, qs);
    if forall k :: 0 <= k < |chunks| ==> NEWLINE in chunks[k] { EachWriteCommits(n, s, qs); }
    if Run(n, s, qs).dev == Dev(s.dev.log + chunks, []) {
      RunCommitted(n, s, qs);
      forall k | 0 <= k < |chunks|
        ensures NEWLINE in chunks[k]
      {
        assert (s.dev.log + chunks)[|s.dev.log| + k] == chunks[k];
      }
    }
  }

  lemma WriteWhole(log: seq<bytes>, chunks: seq<bytes>, data: bytes, fault: nat)
    requires NEWLINE in Accepted(data, fault)
    ensures WriteCall(Dev(log + chunks, []), 0, data, fault).dev == Dev(log + (chunks + [Accepted(data, fault)]), [])
  {
    var accepted := Accepted(data, fault);
    assert [] + accepted == accepted;
    assert log + chunks + [accepted] == log + (chunks + [accepted]);
  }

  lemma {:induction false} EachWriteCommits(n: capacity, s: System, qs: seq<Request>)
    requires s.dev.pending == []
    requires var chunks := Chunks(|s.pos|, qs); forall k :: 0 <= k < |chunks| ==> NEWLINE in chunks[k]
    ensures Run(n, s, qs).dev == Dev(s.dev.log + Chunks(|s.pos|, qs), [])
    decreases |qs|
  {
    if qs != [] {
      var init, q := qs[..|qs| - 1], qs[|qs| - 1];
      var before := Chunks(|s.pos|, init);
      RunLast(n, s, qs);
      ServeDev(n, Run(n, s, init), q);
      assert Chunks(|s.pos|, qs)[..|before|] == before;
      EachWriteCommits(n, s, init);
      if q.client < |s.pos| && q.call.Write? {
        assert Chunks(|s.pos|, qs)[|before|] == Accepted(q.call.data, q.call.fault);
        WriteWhole(s.dev.log, before, q.call.data, q.call.fault);
      }
    }
  }

  /** However the bytes of a line are cut into writes, whatever part of each write is accepted,
      whoever makes them and whatever else is called in between: if nothing was pending and the
      accepted bytes add up to the line, then just this line has been committed. */
  lemma SplitIndependence(n: capacity, s: System, qs: seq<Request>, line: bytes)
    requires s.dev.pending == [] && IsLine(line)
    requires Flat(Chunks(|s.pos|, qs)) == line
    ensures Run(n, s, qs).dev == Dev(s.dev.log + [line], [])
  {
    PartOfLine(n, s, qs, line);
  }

  lemma {:induction false} PartOfLine(n: capacity, s: System, qs: seq<Request>, line: bytes)
    requires s.dev.pending == [] && IsLine(line)
    requires Flat(Chunks(|s.pos|, qs)) <= line
    ensures var part := Flat(Chunks(|s.pos|, qs));
      Run(n, s, qs).dev == if part == line then Dev(s.dev.log + [line], []) else Dev(s.dev.log, part)
    decreases |qs|
  {
    if qs != [] {
      var init, q := qs[..|qs| - 1], qs[|qs| - 1];
      RunLast(n, s, qs);
      ServeDev(n, Run(n, s, init), q);
      if q.client < |s.pos| && q.call.Write? {
        FlatLast(Chunks(|s.pos|, init), Accepted(q.call.data, q.call.fault));
        PartOfLine(n, s, init, line);
        PrefixOfLine(line, Flat(Chunks(|s.pos|, qs)));
      } else {
        PartOfLine(n, s, init, line);
      }
    }
  }

  lemma PrefixOfLine(line: bytes, part: bytes)
    requires IsLine(line) && part <= line
    ensures NEWLINE in part <==> part == line
  {
    if part != line {
      assert part <= line[..|line| - 1];
    } else {
      assert line[|line| - 1] in line;
    }
  }

  /** The exact condition for the way a write is cut in two not to matter: no newline before its
      last byte.  Otherwise what follows the newline goes with it when written at once, and
      stays pending when written apart. */
  lemma SplitMatters(dev: Dev, data: bytes)
    requires NEWLINE !in dev.pending
    ensures (forall k :: 0 <= k <= |data| ==> InTwo(dev, data, k) == WriteCall(dev, 0, data, 0).dev)
      <==> (forall i :: 0 <= i < |data| - 1 ==> data[i] != NEWLINE)
  {
    var whole := WriteCall(dev, 0, data, 0).dev;
    assert Accepted(data, 0) == data;
    if i :| 0 <= i < |data| - 1 && data[i] == NEWLINE {
      assert data[..i + 1][i] == NEWLINE;
      assert InTwo(dev, data, i + 1).log[|dev.log|] == dev.pending + data[..i + 1];
      assert whole.log[|dev.log|] == dev.pending + data;
    } else {
      forall k | 0 <= k <= |data|
        ensures InTwo(dev, data, k) == whole
      {
        assert Accepted(data[..k], 0) == data[..k] && Accepted(data[k..], 0) == data[k..];
        assert data[..k] + data[k..] == data;
        if k == |data| {
        } else {
          assert NEWLINE !in data[..k];
          assert dev.pending + data[..k] + data[k..] == dev.pending + data;
        }
      }
    }
  }

  function InTwo(dev: Dev, data: bytes, k: nat): Dev
    requires k <= |data|
  {
    WriteCall(WriteCall(dev, 0, data[..k], 0).dev, 0, data[k..], 0).dev
  }
}
