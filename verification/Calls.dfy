/** What each whole call of `DriverSpec` gives its caller, told without its definition: from the flat
    contents, the sizes of the commands and the data handed in. */
module Calls {
  import opened Sequences
  import opened CircularBuffers
  import opened DriverSpec

  /** Position `p` of the contents lies in the `k`-th oldest command. */
  ghost predicate InCommand(n: nat, dev: Dev, p: nat, k: nat) {
    var sizes := Sizes(Window(n, dev.log));
    k < |sizes| && Sum(sizes[..k]) <= p < Sum(sizes[..k + 1])
  }

  /** Where the `k`-th oldest command ends in the contents. */
  function EndOf(n: nat, dev: Dev, k: nat): nat
    requires k < Min(n, |dev.log|)
  {
    Sum(Sizes(Window(n, dev.log))[..k + 1])
  }

  lemma {:induction false} RestIsSlice(n: nat, dev: Dev, p: nat) returns (k: nat)
    requires p < |Contents(n, dev)|
    ensures InCommand(n, dev, p, k) && EndOf(n, dev, k) <= |Contents(n, dev)|
    ensures Rest(Window(n, dev.log), p) == Contents(n, dev)[p..EndOf(n, dev, k)]
  {
    var w := Window(n, dev.log);
    var sizes := Sizes(w);
    FlatSize(w);
    LocateSound(sizes, p);
    RestIsLocated(w, p);
    RestInFlat(w, p);
    k := Locate(sizes, p).value.index;
    SumNext(sizes, k);
    SumSplit(sizes, k + 1);
    var rest := Rest(w, p);
    assert Flat(w)[p..][..|rest|] == Flat(w)[p..p + |rest|];
  }

  lemma InOneCommand(n: nat, dev: Dev, p: nat, j: nat, k: nat)
    requires InCommand(n, dev, p, j) && InCommand(n, dev, p, k)
    ensures j == k
  {
    var sizes := Sizes(Window(n, dev.log));
    if j < k { SumUpTo(sizes, j + 1, k); }
    if k < j { SumUpTo(sizes, k + 1, j); }
  }

  /** aesd_read inside the contents: the bytes from the position on, up to `count` of them or to the
      end of the command the position lies in, whichever comes first; the last `fault` of these
      are not copied.  The position moves by what was copied, which is what is returned. */
  lemma {:induction false} ReadDelivers(n: nat, dev: Dev, pos: nat, count: nat, fault: nat) returns (k: nat)
    requires pos < |Contents(n, dev)|
    ensures InCommand(n, dev, pos, k) && EndOf(n, dev, k) <= |Contents(n, dev)|
    ensures var to := Min(pos + count, EndOf(n, dev, k)); var wanted := to - pos;
      var copied := if fault < wanted then wanted - fault else 0;
      ReadCall(n, dev, pos, count, fault)
        == Outcome(dev, pos + copied, copied, Contents(n, dev)[pos..pos + copied])
  {
    k := RestIsSlice(n, dev, pos);
    RestInFlat(Window(n, dev.log), pos);
    var rest := Rest(Window(n, dev.log), pos);
    var wanted := Min(pos + count, EndOf(n, dev, k)) - pos;
    assert |rest| == EndOf(n, dev, k) - pos;
    var copied := if fault < wanted then wanted - fault else 0;
    assert rest[..copied] == Contents(n, dev)[pos..pos + copied];
  }

  /** At or past the end of the contents, and at a negative position: nothing, and back to 0. */
  lemma ReadAtEnd(n: nat, dev: Dev, pos: int, count: nat, fault: nat)
    requires AsSizeT(pos) >= |Contents(n, dev)|
    ensures ReadCall(n, dev, pos, count, fault) == Outcome(dev, 0, 0, [])
  {
    RestInFlat(Window(n, dev.log), AsSizeT(pos));
  }

  /** No read ever delivers more than it is asked for, or other than it returns; a read without a
      fault delivers all it is asked for or comes to the end of a command or of the contents; and
      a fault takes away as many bytes from the end. */
  lemma {:induction false} ReadBounds(n: nat, dev: Dev, pos: int, count: nat, fault: nat)
    ensures var o := ReadCall(n, dev, pos, count, fault); var full := ReadCall(n, dev, pos, count, 0);
      && o.dev == dev && o.ret == |o.out| <= count
      && |o.out| == (if fault < |full.out| then |full.out| - fault else 0)
      && o.out == full.out[..|o.out|]
      && (AsSizeT(pos) < |Contents(n, dev)| && |full.out| < count ==>
            exists k :: InCommand(n, dev, AsSizeT(pos), k) && AsSizeT(pos) + |full.out| == EndOf(n, dev, k))
  {
    var p := AsSizeT(pos);
    RestInFlat(Window(n, dev.log), p);
    if p < |Contents(n, dev)| {
      var k := RestIsSlice(n, dev, p);
    }
  }

  /** What gets across of a write: all of the data but the last `fault` bytes. */
  lemma AcceptedIs(data: bytes, fault: nat)
    ensures Accepted(data, 0) == data
    ensures fault <= |data| ==> Accepted(data, fault) + data[|data| - fault..] == data
    ensures fault >= |data| ==> Accepted(data, fault) == []
  {
  }

  /** aesd_write returns how much got across, delivers nothing and leaves the position alone; with
      a newline in what is pending then, all of it becomes one command, and otherwise it stays. */
  lemma WriteTakes(n: capacity, dev: Dev, pos: int, data: bytes, fault: nat)
    requires fault <= |data|
    ensures var o := Apply(n, dev, pos, Write(data, fault)); var taken := data[..|data| - fault];
      && o.ret == |data| - fault && o.pos == pos && o.out == []
      && (NEWLINE in dev.pending || NEWLINE in taken ==>
            |o.dev.log| == |dev.log| + 1 && dev.log <= o.dev.log
            && o.dev.log[|dev.log|] == dev.pending + taken && o.dev.pending == [])
      && (NEWLINE !in dev.pending && NEWLINE !in taken ==>
            o.dev.log == dev.log && o.dev.pending == dev.pending + taken)
  {
  }

  /** The calls that only look, and what they do to the position. */
  lemma OtherCalls(n: capacity, dev: Dev, pos: int, call: Call)
    requires !call.Write?
    ensures var o := Apply(n, dev, pos, call);
      && o.dev == dev
      && (call == BadSeekTo ==> o == Outcome(dev, pos, 14, []))
      && (call == OtherIoctl ==> o == Outcome(dev, pos, -25, []))
      && (call.SeekTo? ==> o.out == [] && (o.ret == 0 || (o.ret == -22 && o.pos == pos)))
      && (call.Llseek? ==> o.out == [] && o.pos == o.ret)
  {
  }

  /** aesd_llseek reaches every position up to the counter, and none beyond it; an error is stored
      and returned as it is. */
  lemma LlseekReaches(dev: Dev, want: nat, errno: nat)
    ensures want <= TotalSize(dev) ==> LlseekCall(dev, Granted(want)) == Outcome(dev, want, want, [])
    ensures want > TotalSize(dev) ==> LlseekCall(dev, Granted(want)).pos == TotalSize(dev)
    ensures LlseekCall(dev, Granted(want)).ret == LlseekCall(dev, Granted(want)).pos
    ensures LlseekCall(dev, Refused(errno)) == Outcome(dev, 0 - errno, 0 - errno, [])
  {
  }

  /** A request changes the position of no other file, and the device as the call does. */
  lemma OnlyOwnPosition(n: capacity, s: System, q: Request, c: nat)
    requires c < |s.pos| && q.client < |s.pos|
    ensures Serve(n, s, q).dev == Apply(n, s.dev, s.pos[q.client], q.call).dev
    ensures Serve(n, s, q).pos[c] == if c == q.client then Apply(n, s.dev, s.pos[c], q.call).pos else s.pos[c]
  {
  }
}
