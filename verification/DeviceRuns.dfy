/** Whole runs of file operations on the real device: any number of open files, any requests in
    any order.  They come to the runs of `DriverSpec`, so that what is proved about those holds
    of the device, its memory blocks included. */
module DeviceRuns {
  import opened Sequences
  import opened CircularBuffers
  import opened DriverSpec
  import opened Devices
  import Calls

  /** What a call hands to its caller. */
  datatype Result = Result(ret: int, out: bytes)

  /** One call, the spare room krealloc would give it, and whether taking the lock is
      interrupted. */
  datatype Attempt = Attempt(request: Request, slack: nat, interrupted: bool)

  /** The device and its files as the simple state. */
  ghost function SystemOf(dev: Device, files: seq<File>): System
    reads dev, files
  {
    System(dev.Abs(), Positions(files))
  }

  ghost function Positions(files: seq<File>): (pos: seq<int>)
    reads files
    ensures |pos| == |files|
    ensures forall c :: 0 <= c < |files| ==> pos[c] == files[c].pos
  {
    seq(|files|, c requires 0 <= c < |files| reads files => files[c].pos)
  }

  /** The requests that get the lock. */
  function Taken(attempts: seq<Attempt>): seq<Request> {
    if attempts == [] then []
    else
      var last := attempts[|attempts| - 1];
      Taken(attempts[..|attempts| - 1]) + if last.interrupted then [] else [last.request]
  }

  /** All requests are taken but the interrupted ones, in order. */
  lemma {:induction false} TakenIs(attempts: seq<Attempt>, a: Attempt, more: seq<Attempt>)
    ensures Taken(attempts + [a] + more)
      == if a.interrupted then Taken(attempts) + Taken(more) else Taken(attempts) + [a.request] + Taken(more)
    decreases |more|
  {
    if more == [] {
      assert attempts + [a] + more == attempts + [a] && (attempts + [a])[..|attempts|] == attempts;
      assert Taken(attempts) + [] + [] == Taken(attempts);
    } else {
      var init, last := more[..|more| - 1], more[|more| - 1];
      TakenIs(attempts, a, init);
      assert (attempts + [a] + more)[..|attempts + [a] + more| - 1] == attempts + [a] + init;
    }
  }

  /** What one attempt returns in state `s`. */
  function Answer(n: capacity, s: System, a: Attempt): Result
    requires a.request.client < |s.pos|
  {
    if a.interrupted then Result(-ERESTARTSYS, [])
    else
      var o := Apply(n, s.dev, s.pos[a.request.client], a.request.call);
      Result(o.ret, o.out)
  }

  /** What the caller can tell from it. */
  lemma AnswerMeans(n: capacity, s: System, a: Attempt)
    requires a.request.client < |s.pos|
    ensures var r, call := Answer(n, s, a), a.request.call;
      && (a.interrupted ==> r == Result(-512, []))
      && (!a.interrupted && call.Read? ==> r.ret == |r.out| <= call.count)
      && (!a.interrupted && !call.Read? ==> r.out == [])
      && (!a.interrupted && call.Write? && call.fault <= |call.data| ==> r.ret == |call.data| - call.fault)
      && (!a.interrupted && call.SeekTo? ==> r.ret == 0 || r.ret == -22)
  {
    if a.request.call.Read? {
      Calls.ReadBounds(n, s.dev, s.pos[a.request.client], a.request.call.count, a.request.call.fault);
    }
  }

  /** `results` are the answers to the first attempts, each in the state that the whole calls
      before it lead to. */
  ghost predicate Answered(n: capacity, s: System, attempts: seq<Attempt>, results: seq<Result>)
    requires forall k :: 0 <= k < |attempts| ==> attempts[k].request.client < |s.pos|
  {
    && |results| <= |attempts|
    && forall k :: 0 <= k < |results| ==> results[k] == Answer(n, Run(n, s, Taken(attempts[..k])), attempts[k])
  }

  /** A call that leaves the device as it is. */
  method Inspect(dev: Device, file: File, call: Call, interrupted: bool) returns (result: Result)
    requires dev.Valid() && !call.Write?
    modifies file
    ensures interrupted ==> file.pos == old(file.pos) && result == Result(-ERESTARTSYS, [])
    ensures !interrupted ==>
      Outcome(dev.Abs(), file.pos, result.ret, result.out) == Apply(dev.Capacity(), dev.Abs(), old(file.pos), call)
  {
    var ret, out := 0, [];
    match call {
      case Read(count, fault) => ret, out := dev.Read(file, count, fault, interrupted);
      case SeekTo(cmd, offset) => ret := dev.Ioctl(file, true, Some((cmd, offset)), interrupted);
      case BadSeekTo => ret := dev.Ioctl(file, true, None, interrupted);
      case OtherIoctl => ret := dev.Ioctl(file, false, None, interrupted);
      case Llseek(answer) => ret := dev.Llseek(file, answer, interrupted);
    }
    result := Result(ret, out);
  }

  /** One call of one file. */
  method Perform(dev: Device, file: File, call: Call, slack: nat, interrupted: bool) returns (result: Result)
    requires dev.Valid()
    modifies dev, dev.buffer, dev.buffer.entry, BlockOf(dev.entry), file
    ensures dev.Valid() && fresh(BlockOf(dev.entry) - old(BlockOf(dev.entry)))
    ensures old(dev.handedOut) <= dev.handedOut && old(dev.freed) <= dev.freed
    ensures interrupted ==>
      dev.Abs() == old(dev.Abs()) && file.pos == old(file.pos) && result == Result(-ERESTARTSYS, [])
    ensures !interrupted ==>
      Outcome(dev.Abs(), file.pos, result.ret, result.out)
        == Apply(dev.Capacity(), old(dev.Abs()), old(file.pos), call)
  {
    if call.Write? {
      var ret := dev.Write(call.data, call.fault, slack, interrupted);
      result := Result(ret, []);
    } else {
      result := Inspect(dev, file, call, interrupted);
    }
  }

  lemma RunNext(n: capacity, s: System, attempts: seq<Attempt>, k: nat)
    requires k < |attempts| && attempts[k].request.client < |s.pos|
    ensures var before := Run(n, s, Taken(attempts[..k])); var a := attempts[k];
      Run(n, s, Taken(attempts[..k + 1])) == if a.interrupted then before else Serve(n, before, a.request)
  {
    var a := attempts[k];
    assert attempts[..k + 1][..k] == attempts[..k];
    if a.interrupted {
      assert Taken(attempts[..k]) + [] == Taken(attempts[..k]);
    } else {
      RunAppend(n, s, Taken(attempts[..k]), [a.request]);
    }
  }

  /** One attempt, of the file it names: the device and all files go on as the whole call does. */
  method Attempted(dev: Device, files: seq<File>, a: Attempt) returns (result: Result)
    requires dev.Valid() && Distinct(files) && a.request.client < |files|
    modifies dev, dev.buffer, dev.buffer.entry, BlockOf(dev.entry), files
    ensures dev.Valid() && fresh(BlockOf(dev.entry) - old(BlockOf(dev.entry)))
    ensures old(dev.handedOut) <= dev.handedOut && old(dev.freed) <= dev.freed
    ensures var before := old(SystemOf(dev, files));
      && SystemOf(dev, files) == (if a.interrupted then before else Serve(dev.Capacity(), before, a.request))
      && result == Answer(dev.Capacity(), before, a)
  {
    ghost var before := Positions(files);
    var c := a.request.client;
    result := Perform(dev, files[c], a.request.call, a.slack, a.interrupted);
    assert Positions(files) == before[c := files[c].pos];
  }

  lemma AnsweredNext(n: capacity, s: System, attempts: seq<Attempt>, results: seq<Result>, result: Result)
    requires forall k :: 0 <= k < |attempts| ==> attempts[k].request.client < |s.pos|
    requires Answered(n, s, attempts, results) && |results| < |attempts|
    requires result == Answer(n, Run(n, s, Taken(attempts[..|results|])), attempts[|results|])
    ensures Answered(n, s, attempts, results + [result])
  {
  }

  /** The next attempt of a run that began in state `start`. */
  method Next(dev: Device, files: seq<File>, attempts: seq<Attempt>, ghost start: System, results: seq<Result>)
    returns (results': seq<Result>)
    requires dev.Valid() && Distinct(files) && |start.pos| == |files| && |results| < |attempts|
    requires forall k :: 0 <= k < |attempts| ==> attempts[k].request.client < |files|
    requires SystemOf(dev, files) == Run(dev.Capacity(), start, Taken(attempts[..|results|]))
    requires Answered(dev.Capacity(), start, attempts, results)
    modifies dev, dev.buffer, dev.buffer.entry, BlockOf(dev.entry), files
    ensures dev.Valid() && fresh(BlockOf(dev.entry) - old(BlockOf(dev.entry)))
    ensures old(dev.handedOut) <= dev.handedOut && old(dev.freed) <= dev.freed
    ensures |results'| == |results| + 1
    ensures SystemOf(dev, files) == Run(dev.Capacity(), start, Taken(attempts[..|results'|]))
    ensures Answered(dev.Capacity(), start, attempts, results')
  {
    RunNext(dev.Capacity(), start, attempts, |results|);
    var result := Attempted(dev, files, attempts[|results|]);
    AnsweredNext(dev.Capacity(), start, attempts, results, result);
    results' := results + [result];
  }

  /** The device refines the log over whole runs: whatever calls are made, of whichever files,
      interrupted or not, the results, the device's contents and all positions are those of
      the run of whole calls, and every memory block stays accounted for. */
  method RunAll(dev: Device, files: seq<File>, attempts: seq<Attempt>) returns (results: seq<Result>)
    requires dev.Valid() && Distinct(files)
    requires forall k :: 0 <= k < |attempts| ==> attempts[k].request.client < |files|
    modifies dev, dev.buffer, dev.buffer.entry, BlockOf(dev.entry), files
    ensures dev.Valid() && old(dev.handedOut) <= dev.handedOut && old(dev.freed) <= dev.freed
    ensures SystemOf(dev, files) == Run(dev.Capacity(), old(SystemOf(dev, files)), Taken(attempts))
    ensures |results| == |attempts| && Answered(dev.Capacity(), old(SystemOf(dev, files)), attempts, results)
  {
    results := [];
    ghost var start := SystemOf(dev, files);
    while |results| < |attempts|
      invariant |results| <= |attempts| && dev.Valid()
      invariant fresh(BlockOf(dev.entry) - old(BlockOf(dev.entry)))
      invariant old(dev.handedOut) <= dev.handedOut && old(dev.freed) <= dev.freed
      invariant SystemOf(dev, files) == Run(dev.Capacity(), start, Taken(attempts[..|results|]))
      invariant Answered(dev.Capacity(), start, attempts, results)
    {
      results := Next(dev, files, attempts, start, results);
    }
    assert attempts[..|attempts|] == attempts;
  }

  /** One command, written at once to a device with nothing pending. */
  method WriteCommand(dev: Device, line: bytes)
    requires dev.Valid() && dev.pending == [] && dev.entry.buffptr == None && NEWLINE in line
    modifies dev, dev.buffer, dev.buffer.entry
    ensures dev.Valid() && dev.Abs() == Dev(old(dev.log) + [line], []) && dev.entry.buffptr == None
  {
    assert Accepted(line, 0) == line && [] + line == line;
    var ret := dev.Write(line, 0, 0, false);
  }

  method WriteCommands(dev: Device, lines: seq<bytes>)
    requires dev.Valid() && dev.pending == [] && dev.entry.buffptr == None
    requires forall k :: 0 <= k < |lines| ==> NEWLINE in lines[k]
    modifies dev, dev.buffer, dev.buffer.entry
    ensures dev.Valid() && dev.Abs() == Dev(old(dev.log) + lines, []) && dev.entry.buffptr == None
  {
    if lines != [] {
      WriteCommand(dev, lines[0]);
      WriteCommands(dev, lines[1..]);
      assert old(dev.log) + [lines[0]] + lines[1..] == old(dev.log) + lines;
    } else {
      assert dev.log + lines == dev.log;
    }
  }

  /** Commands written to a new device, then the cleanup: the blocks of all but the last `n`
      are left behind, one with the first command beyond the capacity. */
  method WriteThenCleanUp(n: capacity, lines: seq<bytes>) returns (dev: Device)
    requires forall k :: 0 <= k < |lines| ==> NEWLINE in lines[k]
    ensures |dev.handedOut - dev.freed| == |lines| - Min(n, |lines|)
  {
    dev := new Device(n);
    WriteCommands(dev, lines);
    dev.CleanAfterCleanup();
    dev.Cleanup();
  }
}
