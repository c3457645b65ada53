/** What each file operation of the driver (aesd-char-driver/main.c) does as one whole call,
    on the simple state: an append-only log of commands and the bytes of the pending one. */
module DriverSpec {
  import opened Sequences
  import opened CircularBuffers

  const EFAULT: int := 14
  const EINVAL: int := 22
  const ENOTTY: int := 25
  const ERESTARTSYS: int := 512

  datatype Dev = Dev(log: seq<bytes>, pending: bytes)

  /** The answer of fixed_size_llseek: a position, held to the size it is given, or an error. */
  datatype Answer = Granted(want: nat) | Refused(errno: nat)

  /** One call with everything its outcome depends on besides the driver's state.  `fault` is
      how many bytes the copy to or from user space would leave uncopied.  An ioctl of any
      request other than AESDCHAR_IOCSEEKTO is `OtherIoctl`; `BadSeekTo` is one whose
      argument cannot be copied in. */
  datatype Call =
    | Read(count: nat, fault: nat)
    | Write(data: bytes, fault: nat)
    | SeekTo(cmd: nat, offset: nat)
    | BadSeekTo
    | OtherIoctl
    | Llseek(answer: Answer)

  /** The device and the caller's file position afterwards, the returned number, and the bytes
      that reached the caller's buffer. */
  datatype Outcome = Outcome(dev: Dev, pos: int, ret: int, out: bytes)

  const TWO_TO_THE_64: int := 0x1_0000_0000_0000_0000

  /** `f_pos` is signed, the lookup's offset is a 64-bit `size_t`: a negative one wraps. */
  function AsSizeT(pos: int): nat
    decreases if pos < 0 then -pos else 0
  {
    if pos < 0 then AsSizeT(pos + TWO_TO_THE_64) else pos
  }

  /** What a reader sees: the last `n` commands end to end. */
  function Contents(n: nat, dev: Dev): bytes {
    Flat(Window(n, dev.log))
  }

  /** `total_size`, an 8-bit sum that never shrinks. */
  function TotalSize(dev: Dev): nat {
    Sum(Sizes(dev.log)) % 256
  }

  function Accepted(data: bytes, fault: nat): bytes {
    data[..|data| - Min(fault, |data|)]
  }

  /** aesd_read: never past the end of the command it starts in, and back to the start of the
      file when there is nothing to read. */
  function ReadCall(n: nat, dev: Dev, pos: int, count: nat, fault: nat): Outcome {
    var rest := Rest(Window(n, dev.log), AsSizeT(pos));
    if rest == [] then Outcome(dev, 0, 0, [])
    else
      var wanted := Min(|rest|, count);
      var copied := wanted - Min(fault, wanted);
      Outcome(dev, pos + copied, copied, rest[..copied])
  }

  /** aesd_write */
  function WriteCall(dev: Dev, pos: int, data: bytes, fault: nat): Outcome {
    var accepted := Accepted(data, fault);
    var line := dev.pending + accepted;
    var dev' := if NEWLINE in line then Dev(dev.log + [line], []) else dev.(pending := line);
    Outcome(dev', pos, |accepted|, [])
  }

  /** The position aesd_adjust_file_offset stores: the sizes of the slots before `cmd` in ARRAY
      order, plus the offset; nothing when a check refuses.  `sizes` are those of the log. */
  function SeekPosition(n: capacity, sizes: seq<nat>, cmd: nat, offset: nat): Option<nat> {
    var slots := Physical(n, sizes);
    if cmd < |slots| && offset < slots[cmd] then Some(Sum(slots[..cmd]) + offset) else None
  }

  /** aesd_ioctl with AESDCHAR_IOCSEEKTO */
  function SeekCall(n: capacity, dev: Dev, pos: int, cmd: nat, offset: nat): Outcome {
    match SeekPosition(n, Sizes(dev.log), cmd, offset)
    case None => Outcome(dev, pos, -EINVAL, [])
    case Some(p) => Outcome(dev, p, 0, [])
  }

  /** aesd_llseek: whatever comes back is stored as the position, errors included. */
  function LlseekCall(dev: Dev, answer: Answer): Outcome {
    var p: int := match answer case Granted(want) => Min(want, TotalSize(dev)) case Refused(errno) => 0 - errno;
    Outcome(dev, p, p, [])
  }

  /** One whole call.  The failed copy of an ioctl argument returns EFAULT with a plus sign. */
  function Apply(n: capacity, dev: Dev, pos: int, call: Call): Outcome {
    match call
    case Read(count, fault) => ReadCall(n, dev, pos, count, fault)
    case Write(data, fault) => WriteCall(dev, pos, data, fault)
    case SeekTo(cmd, offset) => SeekCall(n, dev, pos, cmd, offset)
    case BadSeekTo => Outcome(dev, pos, EFAULT, [])
    case OtherIoctl => Outcome(dev, pos, -ENOTTY, [])
    case Llseek(answer) => LlseekCall(dev, answer)
  }

  /** Every open file has its own position; calls come from any of them. */
  datatype System = System(dev: Dev, pos: seq<int>)

  datatype Request = Request(client: nat, call: Call)

  /** A request of a file that is not open changes nothing. */
  function Serve(n: capacity, s: System, q: Request): System {
    if q.client < |s.pos| then
      var o := Apply(n, s.dev, s.pos[q.client], q.call);
      System(o.dev, s.pos[q.client := o.pos])
    else s
  }

  /** The state after a run of whole calls, in order. */
  function Run(n: capacity, s: System, qs: seq<Request>): (s': System)
    ensures |s'.pos| == |s.pos|
    decreases |qs|
  {
    if qs == [] then s else Run(n, Serve(n, s, qs[0]), qs[1..])
  }

  lemma {:induction false} RunAppend(n: capacity, s: System, a: seq<Request>, b: seq<Request>)
    ensures Run(n, s, a + b) == Run(n, Run(n, s, a), b)
    decreases |a|
  {
    if a == [] {
      assert a + b == b;
    } else {
      RunAppend(n, Serve(n, s, a[0]), a[1..], b);
      assert (a + b)[1..] == a[1..] + b;
    }
  }

  lemma {:induction false} RunLast(n: capacity, s: System, qs: seq<Request>)
    requires qs != []
    ensures Run(n, s, qs) == Serve(n, Run(n, s, qs[..|qs| - 1]), qs[|qs| - 1])
  {
    var last := qs[|qs| - 1];
    RunAppend(n, s, qs[..|qs| - 1], [last]);
    assert qs == qs[..|qs| - 1] + [last];
  }

  /** What the writers leave behind: no newline in the pending bytes, one in every command. */
  ghost predicate Committed(dev: Dev) {
    && NEWLINE !in dev.pending
    && (forall k :: 0 <= k < |dev.log| ==> NEWLINE in dev.log[k])
  }

  /** Every call keeps it, and only ever appends to the log. */
  lemma ApplyCommitted(n: capacity, dev: Dev, pos: int, call: Call)
    requires Committed(dev)
    ensures Committed(Apply(n, dev, pos, call).dev)
    ensures dev.log <= Apply(n, dev, pos, call).dev.log
  {
  }

  lemma {:induction false} RunCommitted(n: capacity, s: System, qs: seq<Request>)
    requires Committed(s.dev)
    ensures Committed(Run(n, s, qs).dev)
    ensures s.dev.log <= Run(n, s, qs).dev.log
    decreases |qs|
  {
    if qs != [] {
      if qs[0].client < |s.pos| { ApplyCommitted(n, s.dev, s.pos[qs[0].client], qs[0].call); }
      RunCommitted(n, Serve(n, s, qs[0]), qs[1..]);
    }
  }
}
