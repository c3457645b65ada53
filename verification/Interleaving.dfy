/** The driver under concurrent callers (aesd-char-driver/main.c:114-129, 256-294, 312-407).

    Any number of clients, each with its own open file, run the file operations step by step:
    take the lock or be interrupted, the body (one loop iteration or group of assignments of
    the source at a time, on the physical ring), release the lock.  Every interleaving of these
    steps amounts to whole calls in the order in which they took the lock. */
module Interleaving {
  import opened Sequences
  import opened CircularBuffers
  import opened DriverSpec

  /** Where a client stands.  The first two and the last are outside the lock. */
  datatype Pc =
    | Idle
    | Entering(call: Call)
    // aesd_read: the head of the search loop; the slot is found
    | Finding(count: nat, fault: nat, i: nat, wrapAround: bool, seen: nat, offset: nat)
    | CopyingOut(count: nat, fault: nat, slot: nat, offset: nat)
    // aesd_write: before krealloc; before the copy; the head of the newline scan; inside
    // add_entry; after it
    | Growing(data: bytes, fault: nat)
    | CopyingIn(data: bytes, fault: nat)
    | Scanning(i: nat, ret: int)
    | Advancing(i: nat, ret: int)
    | Storing(i: nat, ret: int)
    | Wrapping(i: nat, ret: int)
    | Clearing(i: nat, ret: int)
    // aesd_ioctl: before the checks; the head of the summing loop
    | Checking(cmd: nat, offset: nat)
    | Summing(cmd: nat, offset: nat, i: nat, total: nat)
    // aesd_llseek
    | Positioning(answer: Answer)
    | Unlocking(ret: int, out: bytes)
    | Returning(ret: int, out: bytes)

  /** What the client that holds the lock can see and change. */
  datatype Local = Local(ring: Ring<bytes>, pending: bytes, pos: int, pc: Pc)

  /** The first step of a call after its lock is taken. */
  function First<P>(ring: Ring<P>, call: Call): Pc {
    match call
    case Read(count, fault) => Finding(count, fault, ring.outOffs, false, 0, 0)
    case Write(data, fault) => Growing(data, fault)
    case SeekTo(cmd, offset) => Checking(cmd, offset)
    case BadSeekTo => Unlocking(EFAULT, [])
    case OtherIoctl => Unlocking(-ENOTTY, [])
    case Llseek(answer) => Positioning(answer)
  }

  function AsEntry(line: bytes): Entry<bytes> {
    Entry(Some(line), |line|)
  }

  /** Where a step that changes neither ring nor pending entry leads. */
  datatype Next = Next(pos: int, pc: Pc)

  /** One iteration of the search loop. */
  function FindNext<P>(ring: Ring<P>, pos: int, pc: Pc): Next
    requires pc.Finding?
  {
    var Finding(count, fault, i0, wrap0, seen0, offset) := pc;
    var i := if i0 == |ring.entry| then 0 else i0;
    var wrapAround := wrap0 || i0 == |ring.entry|;
    if wrapAround && i == ring.outOffs then Next(0, Unlocking(0, []))
    else if i >= |ring.entry| then Next(pos, pc)
    else
      var seen := seen0 + ring.entry[i].size;
      if AsSizeT(pos) < seen && offset <= AsSizeT(pos) then
        Next(pos, CopyingOut(count, fault, i, AsSizeT(pos) - offset))
      else Next(pos, Finding(count, fault, i + 1, wrapAround, seen, offset + ring.entry[i].size))
  }

  function CopyOutStep(l: Local): Local
    requires l.pc.CopyingOut?
  {
    var CopyingOut(count, fault, slot, offset) := l.pc;
    if slot < |l.ring.entry| && l.ring.entry[slot].buffptr.Some? && offset <= |l.ring.entry[slot].buffptr.value| then
      var rest := l.ring.entry[slot].buffptr.value[offset..];
      var wanted := Min(|rest|, count);
      var copied := wanted - Min(fault, wanted);
      l.(pos := l.pos + copied, pc := Unlocking(copied, rest[..copied]))
    else l
  }

  /** One iteration of the newline scan, up to a newline. */
  function ScanStep(l: Local): Local
    requires l.pc.Scanning?
  {
    var Scanning(i, ret) := l.pc;
    if i >= |l.pending| then l.(pc := Unlocking(ret, []))
    else if l.pending[i] == NEWLINE then l.(pc := Advancing(i, ret))
    else l.(pc := Scanning(i + 1, ret))
  }

  function CheckNext<P>(ring: Ring<P>, pos: int, pc: Pc): Next
    requires pc.Checking?
  {
    var Checking(cmd, offset) := pc;
    if cmd >= |ring.entry| || ring.entry[cmd].buffptr.None? || ring.entry[cmd].size <= offset
    then Next(pos, Unlocking(-EINVAL, []))
    else Next(pos, Summing(cmd, offset, 0, 0))
  }

  /** One iteration of the summing loop. */
  function SumNextSlot<P>(ring: Ring<P>, pos: int, pc: Pc): Next
    requires pc.Summing?
  {
    var Summing(cmd, offset, i, total) := pc;
    if i == cmd then Next(total + offset, Unlocking(0, []))
    else if i < |ring.entry| then Next(pos, Summing(cmd, offset, i + 1, total + ring.entry[i].size))
    else Next(pos, pc)
  }

  function PositionNext<P>(ring: Ring<P>, pc: Pc): Next
    requires pc.Positioning?
  {
    var p: int := match pc.answer case Granted(want) => Min(want, ring.totalSize) case Refused(errno) => 0 - errno;
    Next(p, Unlocking(p, []))
  }

  predicate Looks(pc: Pc) {
    pc.Finding? || pc.Checking? || pc.Summing? || pc.Positioning?
  }

  /** One step of a body that changes neither ring nor pending entry. */
  function Look<P>(ring: Ring<P>, pos: int, pc: Pc): Next
    requires Looks(pc)
  {
    match pc
    case Finding(_, _, _, _, _, _) => FindNext(ring, pos, pc)
    case Checking(_, _) => CheckNext(ring, pos, pc)
    case Summing(_, _, _, _) => SumNextSlot(ring, pos, pc)
    case Positioning(_) => PositionNext(ring, pc)
  }

  /** One step of the body of a call. */
  function BodyStep(l: Local): Local {
    if Looks(l.pc) then
      var next := Look(l.ring, l.pos, l.pc);
      l.(pos := next.pos, pc := next.pc)
    else match l.pc
    case CopyingOut(_, _, _, _) => CopyOutStep(l)
    case Growing(data, fault) => l.(pc := CopyingIn(data, fault))
    case CopyingIn(data, fault) =>
      l.(pending := l.pending + Accepted(data, fault), pc := Scanning(0, |Accepted(data, fault)|))
    case Scanning(_, _) => ScanStep(l)
    case Advancing(i, ret) => l.(ring := AdvanceOut(l.ring), pc := Storing(i, ret))
    case Storing(i, ret) =>
      if l.ring.inOffs < |l.ring.entry| then
        l.(ring := StoreEntry(l.ring, AsEntry(l.pending)), pc := Wrapping(i, ret))
      else l
    case Wrapping(i, ret) => l.(ring := WrapIn(l.ring), pc := Clearing(i, ret))
    case Clearing(i, ret) => l.(pending := [], pc := Scanning(i + 1, ret))
    case _ => l
  }

  datatype Holder = Holder(client: nat, call: Call)

  datatype Event = Event(client: nat, call: Call, ret: int, out: bytes)

  /** The whole system; `hist` records every call that has released the lock. */
  datatype State = State(ring: Ring<bytes>, pending: bytes, pos: seq<int>, pc: seq<Pc>,
                         owner: Option<Holder>, hist: seq<Event>)

  datatype Action = Begin(call: Call) | Take | Interrupt | Tick

  datatype Move = Move(client: nat, action: Action)

  predicate Outside(pc: Pc) {
    pc.Idle? || pc.Entering? || pc.Returning?
  }

  function LocalOf(s: State, c: nat): Local
    requires c < |s.pc| == |s.pos|
  {
    Local(s.ring, s.pending, s.pos[c], s.pc[c])
  }

  function Install(s: State, c: nat, l: Local): (s': State)
    requires c < |s.pc| == |s.pos|
    ensures |s'.pc| == |s'.pos| == |s.pos|
  {
    s.(ring := l.ring, pending := l.pending, pos := s.pos[c := l.pos], pc := s.pc[c := l.pc])
  }

  /** One step of one client; a step that is not possible now changes nothing. */
  function Step(s: State, t: Move): (s': State)
    requires |s.pc| == |s.pos|
    ensures |s'.pc| == |s'.pos| == |s.pos|
  {
    var c := t.client;
    if c >= |s.pc| then s
    else match s.pc[c]
      case Idle => if t.action.Begin? then s.(pc := s.pc[c := Entering(t.action.call)]) else s
      case Entering(call) =>
        if t.action.Take? && s.owner == None then
          s.(owner := Some(Holder(c, call)), pc := s.pc[c := First(s.ring, call)])
        else if t.action.Interrupt? then s.(pc := s.pc[c := Returning(-ERESTARTSYS, [])])
        else s
      case Returning(_, _) => if t.action.Tick? then s.(pc := s.pc[c := Idle]) else s
      case Unlocking(ret, out) =>
        if t.action.Tick? && s.owner.Some? then
          s.(owner := None, pc := s.pc[c := Returning(ret, out)],
             hist := s.hist + [Event(c, s.owner.value.call, ret, out)])
        else s
      case _ => if t.action.Tick? then Install(s, c, BodyStep(LocalOf(s, c))) else s
  }

  function Steps(s: State, ts: seq<Move>): (s': State)
    requires |s.pc| == |s.pos|
    ensures |s'.pc| == |s'.pos| == |s.pos|
  {
    if ts == [] then s else Step(Steps(s, ts[..|ts| - 1]), ts[|ts| - 1])
  }

  function Start(n: capacity, clients: nat): State {
    State(Zeroed(n), [], seq(clients, _ => 0), seq(clients, _ => Idle), None, [])
  }

  // The same history as whole calls.

  function Entries(log: seq<bytes>): (entries: seq<Entry<bytes>>)
    ensures |entries| == |log|
    ensures forall k :: 0 <= k < |log| ==> entries[k] == AsEntry(log[k])
  {
    seq(|log|, k requires 0 <= k < |log| => AsEntry(log[k]))
  }

  function RingOf(n: capacity, log: seq<bytes>): Ring<bytes> {
    AddAll(n, Entries(log))
  }

  function Requests(hist: seq<Event>): seq<Request> {
    seq(|hist|, k requires 0 <= k < |hist| => Request(hist[k].client, hist[k].call))
  }

  function Replay(n: capacity, clients: nat, hist: seq<Event>): (s: System)
    ensures |s.pos| == clients
  {
    Run(n, System(Dev([], []), seq(clients, _ => 0)), Requests(hist))
  }

  /** Event `k` returned what its call returns when run whole after the calls before it. */
  ghost predicate Agrees(n: capacity, clients: nat, hist: seq<Event>, k: nat)
    requires k < |hist|
  {
    var s, e := Replay(n, clients, hist[..k]), hist[k];
    e.client < |s.pos| &&
    var o := Apply(n, s.dev, s.pos[e.client], e.call);
    e.ret == o.ret && e.out == o.out
  }

  /** The call under way, started on `dev` and `pos`, has come as far as `l`. */
  ghost predicate Mid(n: capacity, dev: Dev, pos: int, call: Call, l: Local) {
    var untouched := l.ring == RingOf(n, dev.log) && l.pending == dev.pending && l.pos == pos;
    match l.pc
    case Finding(count, fault, i, wrapAround, seen, offset) =>
      && untouched && call == Read(count, fault) && seen == offset
      && var k := if wrapAround then i + n - l.ring.outOffs else i - l.ring.outOffs;
      && k >= 0 && Searching(l.ring, AsSizeT(pos), i, wrapAround, seen, k)
    case CopyingOut(count, fault, slot, offset) =>
      && untouched && call == Read(count, fault) && Intact(n, dev, pos, l.ring, slot, offset)
    case Growing(data, fault) => untouched && call == Write(data, fault)
    case CopyingIn(data, fault) => untouched && call == Write(data, fault)
    case Scanning(i, ret) => call.Write? && l.pos == pos && Scanned(n, dev, call, l.ring, l.pending, i, ret)
    case Advancing(i, ret) =>
      && call.Write? && l.pos == pos && Committing(dev, call, l.pending, i, ret)
      && l.ring == RingOf(n, dev.log)
    case Storing(i, ret) =>
      && call.Write? && l.pos == pos && Committing(dev, call, l.pending, i, ret)
      && l.ring == AdvanceOut(RingOf(n, dev.log))
    case Wrapping(i, ret) =>
      && call.Write? && l.pos == pos && Committing(dev, call, l.pending, i, ret)
      && WrapIn(l.ring) == RingOf(n, dev.log + [l.pending])
    case Clearing(i, ret) =>
      && call.Write? && l.pos == pos && Committing(dev, call, l.pending, i, ret)
      && l.ring == RingOf(n, dev.log + [l.pending])
    case Checking(cmd, offset) => untouched && call == SeekTo(cmd, offset)
    case Summing(cmd, offset, i, total) =>
      && untouched && call == SeekTo(cmd, offset)
      && SeekPosition(n, Sizes(dev.log), cmd, offset).Some? && i <= cmd
      && total == Sum(Physical(n, Sizes(dev.log))[..i])
    case Positioning(answer) => untouched && call == Llseek(answer)
    case Unlocking(ret, out) =>
      var o := Apply(n, dev, pos, call);
      l.ring == RingOf(n, o.dev.log) && l.pending == o.dev.pending && l.pos == o.pos && ret == o.ret && out == o.out
    case _ => false
  }

  /** The slot holds, from the byte on, just what a read at `pos` has to deliver. */
  ghost predicate Intact(n: capacity, dev: Dev, pos: int, ring: Ring<bytes>, slot: nat, offset: nat) {
    && slot < |ring.entry| && ring.entry[slot].buffptr.Some?
    && var content := ring.entry[slot].buffptr.value;
    && offset < |content| && content[offset..] == Rest(Window(n, dev.log), AsSizeT(pos))
  }

  /** The newline scan has passed `i` bytes of the pending entry, or has committed it. */
  ghost predicate Scanned(n: capacity, dev: Dev, call: Call, ring: Ring<bytes>, pending: bytes, i: nat, ret: int)
    requires call.Write?
  {
    var accepted := Accepted(call.data, call.fault);
    var line := dev.pending + accepted;
    && ret == |accepted|
    && if pending == [] && NEWLINE in line then ring == RingOf(n, dev.log + [line])
       else pending == line && ring == RingOf(n, dev.log) && i <= |line| && NEWLINE !in line[..i]
  }

  ghost predicate Committing(dev: Dev, call: Call, pending: bytes, i: nat, ret: int)
    requires call.Write?
  {
    var accepted := Accepted(call.data, call.fault);
    ret == |accepted| && pending == dev.pending + accepted && i < |pending| && pending[i] == NEWLINE
  }

  ghost predicate Inv(n: capacity, s: State) {
    var clients := |s.pos|;
    var a := Replay(n, clients, s.hist);
    && |s.pc| == clients == |a.pos|
    && (forall k :: 0 <= k < |s.hist| ==> Agrees(n, clients, s.hist, k))
    && match s.owner
       case None =>
         && s.ring == RingOf(n, a.dev.log) && s.pending == a.dev.pending && s.pos == a.pos
         && (forall c :: 0 <= c < clients ==> Outside(s.pc[c]))
       case Some(h) =>
         && h.client < clients
         && (forall c :: 0 <= c < clients && c != h.client ==> Outside(s.pc[c]) && s.pos[c] == a.pos[c])
         && Mid(n, a.dev, a.pos[h.client], h.call, LocalOf(s, h.client))
  }

  // Each step of the body keeps `Mid`.

  lemma SizesOfEntries(n: capacity, log: seq<bytes>)
    ensures EntrySizes(Entries(log)) == Sizes(log)
    ensures EntrySizes(Window(n, Entries(log))) == Sizes(Window(n, log))
    ensures Window(n, Entries(log)) == Entries(Window(n, log))
    ensures EntrySizes(Physical(n, Entries(log))) == Physical(n, Sizes(log))
  {
  }

  lemma RingOfAppend(n: capacity, log: seq<bytes>, line: bytes)
    ensures RingOf(n, log + [line]) == Added(RingOf(n, log), AsEntry(line))
  {
    var all := Entries(log + [line]);
    assert all[..|all| - 1] == Entries(log);
  }

  /** The slot a lookup finds in the ring holds the rest of the command to be read. */
  lemma FoundIntact(n: capacity, dev: Dev, pos: int, found: Place)
    requires Lookup(RingOf(n, dev.log), AsSizeT(pos)) == Some(found)
    ensures Intact(n, dev, pos, RingOf(n, dev.log), found.index, found.offset)
  {
    SizesOfEntries(n, dev.log);
    LookupFinds(RingOf(n, dev.log), Entries(dev.log), AsSizeT(pos));
    var w := Window(n, dev.log);
    RestIsLocated(w, AsSizeT(pos));
    var k := Locate(Sizes(w), AsSizeT(pos)).value.index;
    assert RingOf(n, dev.log).entry[found.index] == AsEntry(w[k]);
  }

  lemma NotFoundAtEnd(n: capacity, dev: Dev, pos: int)
    requires Lookup(RingOf(n, dev.log), AsSizeT(pos)) == None
    ensures Rest(Window(n, dev.log), AsSizeT(pos)) == []
  {
    SizesOfEntries(n, dev.log);
    LookupFinds(RingOf(n, dev.log), Entries(dev.log), AsSizeT(pos));
    RestIsLocated(Window(n, dev.log), AsSizeT(pos));
  }

  lemma FindFails(n: capacity, dev: Dev, pos: int, seen: nat)
    requires seen == Sum(EntrySizes(Ordered(RingOf(n, dev.log)))[..n]) && seen <= AsSizeT(pos)
    ensures Rest(Window(n, dev.log), AsSizeT(pos)) == []
  {
    SearchFails(RingOf(n, dev.log), AsSizeT(pos), seen);
    NotFoundAtEnd(n, dev, pos);
  }

  /** The iteration of the search at `pc` led to `next`: to the end, to its slot, or on. */
  ghost predicate Searched(n: capacity, dev: Dev, pos: int, pc: Pc, k: nat, next: Next)
    requires pc.Finding?
  {
    var r := RingOf(n, dev.log);
    match next.pc
    case Finding(count, fault, i, wrapAround, seen, offset) =>
      && next.pos == pos && count == pc.count && fault == pc.fault && seen == offset
      && Searching(r, AsSizeT(pos), i, wrapAround, seen, k + 1)
    case CopyingOut(count, fault, slot, offset) =>
      next.pos == pos && count == pc.count && fault == pc.fault && Intact(n, dev, pos, r, slot, offset)
    case Unlocking(ret, out) =>
      next.pos == 0 && ret == 0 && out == [] && Rest(Window(n, dev.log), AsSizeT(pos)) == []
    case _ => false
  }

  lemma FindNextSearches(n: capacity, dev: Dev, pos: int, pc: Pc, k: nat)
    requires pc.Finding? && pc.seen == pc.offset
    requires Searching(RingOf(n, dev.log), AsSizeT(pos), pc.i, pc.wrapAround, pc.seen, k)
    ensures Searched(n, dev, pos, pc, k, FindNext(RingOf(n, dev.log), pos, pc))
  {
    var r := RingOf(n, dev.log);
    if k == n {
      FindFails(n, dev, pos, pc.seen);
    } else {
      var i := if pc.i == n then 0 else pc.i;
      SearchStep(r, AsSizeT(pos), pc.i, pc.wrapAround, pc.seen, k);
      if AsSizeT(pos) < pc.seen + r.entry[i].size { FoundIntact(n, dev, pos, Place(i, AsSizeT(pos) - pc.seen)); }
    }
  }

  lemma {:induction false} FindKeeps(n: capacity, dev: Dev, pos: int, call: Call, l: Local)
    requires l.pc.Finding? && Mid(n, dev, pos, call, l)
    ensures Mid(n, dev, pos, call, BodyStep(l))
  {
    var k := if l.pc.wrapAround then l.pc.i + n - l.ring.outOffs else l.pc.i - l.ring.outOffs;
    FindNextSearches(n, dev, pos, l.pc, k);
  }

  lemma WriteKeeps(n: capacity, dev: Dev, pos: int, call: Call, l: Local)
    requires l.pc.Growing? || l.pc.CopyingIn? || l.pc.Scanning?
    requires Mid(n, dev, pos, call, l)
    ensures Mid(n, dev, pos, call, BodyStep(l))
  {
  }

  lemma AddKeeps(n: capacity, dev: Dev, pos: int, call: Call, l: Local)
    requires l.pc.Advancing? || l.pc.Storing? || l.pc.Wrapping? || l.pc.Clearing?
    requires Mid(n, dev, pos, call, l)
    ensures Mid(n, dev, pos, call, BodyStep(l))
  {
    RingOfAppend(n, dev.log, l.pending);
  }

  lemma SlotsOfRing(n: capacity, log: seq<bytes>, i: nat)
    requires i < n
    ensures var e := RingOf(n, log).entry[i]; var sizes := Physical(n, Sizes(log));
      && (e.buffptr.Some? <==> i < |sizes|)
      && (i < |sizes| ==> e.size == sizes[i])
  {
    SizesOfEntries(n, log);
    PhysicalSlots(RingOf(n, log), Entries(log));
  }

  lemma SeekKeeps(n: capacity, dev: Dev, pos: int, call: Call, l: Local)
    requires l.pc.Checking? || l.pc.Summing?
    requires Mid(n, dev, pos, call, l)
    ensures Mid(n, dev, pos, call, BodyStep(l))
  {
    var sizes := Physical(n, Sizes(dev.log));
    if l.pc.Checking? {
      if l.pc.cmd < n { SlotsOfRing(n, dev.log, l.pc.cmd); }
      assert sizes[..0] == [];
    } else if l.pc.i < l.pc.cmd {
      SlotsOfRing(n, dev.log, l.pc.i);
      SumNext(sizes, l.pc.i);
    }
  }

  lemma PositionKeeps(n: capacity, dev: Dev, pos: int, call: Call, l: Local)
    requires l.pc.Positioning? && Mid(n, dev, pos, call, l)
    ensures Mid(n, dev, pos, call, BodyStep(l))
  {
    SizesOfEntries(n, dev.log);
    AddAllShaped(n, Entries(dev.log));
  }

  lemma {:induction false} BodyKeeps(n: capacity, dev: Dev, pos: int, call: Call, l: Local)
    requires Mid(n, dev, pos, call, l) && !l.pc.Unlocking?
    ensures Mid(n, dev, pos, call, BodyStep(l))
  {
    match l.pc
    case Finding(_, _, _, _, _, _) => FindKeeps(n, dev, pos, call, l);
    case CopyingOut(_, _, _, _) =>
    case Growing(_, _) => WriteKeeps(n, dev, pos, call, l);
    case CopyingIn(_, _) => WriteKeeps(n, dev, pos, call, l);
    case Scanning(_, _) => WriteKeeps(n, dev, pos, call, l);
    case Checking(_, _) => SeekKeeps(n, dev, pos, call, l);
    case Summing(_, _, _, _) => SeekKeeps(n, dev, pos, call, l);
    case Positioning(_) => PositionKeeps(n, dev, pos, call, l);
    case _ => AddKeeps(n, dev, pos, call, l);
  }

  lemma FirstMid(n: capacity, dev: Dev, pos: int, call: Call)
    ensures var r := RingOf(n, dev.log); Mid(n, dev, pos, call, Local(r, dev.pending, pos, First(r, call)))
  {
    assert EntrySizes(Ordered(RingOf(n, dev.log)))[..0] == [];
  }

  // The whole system.

  lemma ReplayNext(n: capacity, clients: nat, hist: seq<Event>, e: Event)
    ensures Replay(n, clients, hist + [e]) == Serve(n, Replay(n, clients, hist), Request(e.client, e.call))
  {
    var q := Request(e.client, e.call);
    assert Requests(hist + [e]) == Requests(hist) + [q];
    RunAppend(n, System(Dev([], []), seq(clients, _ => 0)), Requests(hist), [q]);
  }

  lemma AgreesNext(n: capacity, clients: nat, hist: seq<Event>, e: Event)
    requires forall k :: 0 <= k < |hist| ==> Agrees(n, clients, hist, k)
    requires Agrees(n, clients, hist + [e], |hist|)
    ensures forall k :: 0 <= k <= |hist| ==> Agrees(n, clients, hist + [e], k)
  {
    forall k | 0 <= k < |hist|
      ensures Agrees(n, clients, hist + [e], k)
    {
      assert Agrees(n, clients, hist, k);
      assert (hist + [e])[..k] == hist[..k];
    }
  }

  lemma ReleaseKeeps(n: capacity, s: State, c: nat)
    requires Inv(n, s) && c < |s.pos| && s.pc[c].Unlocking?
    ensures Inv(n, Step(s, Move(c, Tick)))
  {
    var call := s.owner.value.call;
    var e := Event(c, call, s.pc[c].ret, s.pc[c].out);
    var a := Replay(n, |s.pos|, s.hist);
    ReplayNext(n, |s.pos|, s.hist, e);
    assert (s.hist + [e])[..|s.hist|] == s.hist;
    AgreesNext(n, |s.pos|, s.hist, e);
    assert Mid(n, a.dev, a.pos[c], call, LocalOf(s, c));
    assert a.pos[c := s.pos[c]] == s.pos;
  }

  lemma TakeKeeps(n: capacity, s: State, c: nat)
    requires Inv(n, s) && c < |s.pos| && s.pc[c].Entering? && s.owner == None
    ensures Inv(n, Step(s, Move(c, Take)))
  {
    FirstMid(n, Replay(n, |s.pos|, s.hist).dev, s.pos[c], s.pc[c].call);
  }

  lemma InstallKeeps(n: capacity, s: State, c: nat, l: Local)
    requires Inv(n, s) && s.owner.Some? && s.owner.value.client == c
    requires var a := Replay(n, |s.pos|, s.hist); Mid(n, a.dev, a.pos[c], s.owner.value.call, l)
    ensures Inv(n, Install(s, c, l))
  {
    assert LocalOf(Install(s, c, l), c) == l;
  }

  lemma BodyIsInstalled(s: State, c: nat)
    requires c < |s.pc| == |s.pos| && !Outside(s.pc[c]) && !s.pc[c].Unlocking?
    ensures Step(s, Move(c, Tick)) == Install(s, c, BodyStep(LocalOf(s, c)))
  {
  }

  lemma {:induction false} WorkKeeps(n: capacity, s: State, c: nat)
    requires Inv(n, s) && c < |s.pos| && !Outside(s.pc[c]) && !s.pc[c].Unlocking?
    ensures Inv(n, Step(s, Move(c, Tick)))
  {
    var a, h := Replay(n, |s.pos|, s.hist), s.owner.value;
    BodyKeeps(n, a.dev, a.pos[c], h.call, LocalOf(s, c));
    BodyIsInstalled(s, c);
    InstallKeeps(n, s, c, BodyStep(LocalOf(s, c)));
  }

  lemma OutsideKeeps(n: capacity, s: State, c: nat, pc: Pc)
    requires Inv(n, s) && c < |s.pos| && Outside(s.pc[c]) && Outside(pc)
    ensures Inv(n, s.(pc := s.pc[c := pc]))
  {
    if s.owner.Some? {
      var h := s.owner.value.client;
      assert LocalOf(s.(pc := s.pc[c := pc]), h) == LocalOf(s, h);
    }
  }

  lemma StepKeeps(n: capacity, s: State, t: Move)
    requires Inv(n, s)
    ensures Inv(n, Step(s, t))
  {
    var c := t.client;
    if c >= |s.pc| {
    } else if s.pc[c].Unlocking? {
      if t.action.Tick? { ReleaseKeeps(n, s, c); }
    } else if s.pc[c].Entering? && t.action.Take? && s.owner == None {
      TakeKeeps(n, s, c);
    } else if Outside(s.pc[c]) {
      var s' := Step(s, t);
      assert s' == s || s' == s.(pc := s.pc[c := s'.pc[c]]);
      OutsideKeeps(n, s, c, s'.pc[c]);
    } else if t.action.Tick? {
      WorkKeeps(n, s, c);
    }
  }

  lemma StartInv(n: capacity, clients: nat)
    ensures Inv(n, Start(n, clients))
  {
    assert Entries([]) == [];
  }

  lemma {:induction false} StepsKeep(n: capacity, clients: nat, ts: seq<Move>)
    ensures |Steps(Start(n, clients), ts).pos| == clients
    ensures Inv(n, Steps(Start(n, clients), ts))
  {
    if ts == [] {
      StartInv(n, clients);
    } else {
      StepsKeep(n, clients, ts[..|ts| - 1]);
      StepKeeps(n, Steps(Start(n, clients), ts[..|ts| - 1]), ts[|ts| - 1]);
    }
  }

  /** Fine-grained concurrency refines whole calls.  Whatever the interleaving, every finished
      call has returned what it returns when the calls are run whole, one after the other, in
      the order of the lock; and whenever the lock is free, the ring, the pending bytes and all
      positions are those the whole calls lead to. */
  lemma {:induction false} RunsAsWholeCalls(n: capacity, clients: nat, ts: seq<Move>)
    ensures var s := Steps(Start(n, clients), ts); var whole := Replay(n, clients, s.hist);
      && |s.pos| == clients
      && (forall k :: 0 <= k < |s.hist| ==> Agrees(n, clients, s.hist, k))
      && (s.owner == None ==>
            s.ring == RingOf(n, whole.dev.log) && s.pending == whole.dev.pending && s.pos == whole.pos)
  {
    StepsKeep(n, clients, ts);
  }

  /** The slot a read has found is still intact when it is copied, whatever happened between. */
  lemma {:induction false} SlotStaysIntact(n: capacity, clients: nat, ts: seq<Move>, c: nat)
    requires c < clients && Steps(Start(n, clients), ts).pc[c].CopyingOut?
    ensures var s := Steps(Start(n, clients), ts); var whole := Replay(n, clients, s.hist);
      && |s.pos| == clients
      && s.ring == RingOf(n, whole.dev.log)
      && Intact(n, whole.dev, s.pos[c], s.ring, s.pc[c].slot, s.pc[c].offset)
  {
    StepsKeep(n, clients, ts);
  }

  /** How many own steps the holder of the lock needs at most to release it. */
  function Work(l: Local): (steps: nat)
    ensures steps > 0
  {
    match l.pc
    case Finding(_, _, i, wrapAround, _, _) =>
      var n := |l.ring.entry|;
      3 + if wrapAround then (if i <= l.ring.outOffs then l.ring.outOffs - i else 0)
          else if i <= n then n + l.ring.outOffs - i else 0
    case CopyingOut(_, _, _, _) => 2
    case Growing(data, _) => 8 + |l.pending| + |data|
    case CopyingIn(data, _) => 7 + |l.pending| + |data|
    case Scanning(i, _) => if i < |l.pending| then 6 + |l.pending| - i else 2
    case Advancing(_, _) => 6
    case Storing(_, _) => 5
    case Wrapping(_, _) => 4
    case Clearing(_, _) => 3
    case Checking(cmd, _) => 3 + cmd
    case Summing(cmd, _, i, _) => 2 + if i <= cmd then cmd - i else 0
    case Positioning(_) => 2
    case _ => 1
  }

  lemma FindProgresses(n: capacity, dev: Dev, pos: int, call: Call, l: Local)
    requires Mid(n, dev, pos, call, l) && l.pc.Finding?
    ensures Work(BodyStep(l)) < Work(l)
  {
  }

  lemma SeekProgresses(n: capacity, dev: Dev, pos: int, call: Call, l: Local)
    requires Mid(n, dev, pos, call, l) && (l.pc.Checking? || l.pc.Summing?)
    ensures Work(BodyStep(l)) < Work(l)
  {
    if l.pc.Checking? && l.pc.cmd < n { SlotsOfRing(n, dev.log, l.pc.cmd); }
  }

  lemma BodyProgresses(n: capacity, dev: Dev, pos: int, call: Call, l: Local)
    requires Mid(n, dev, pos, call, l) && !l.pc.Unlocking?
    ensures Work(BodyStep(l)) < Work(l)
  {
    match l.pc
    case Finding(_, _, _, _, _, _) => FindProgresses(n, dev, pos, call, l);
    case Checking(_, _) => SeekProgresses(n, dev, pos, call, l);
    case Summing(_, _, _, _) => SeekProgresses(n, dev, pos, call, l);
    case _ =>
  }

  /** While a client holds the lock, its own steps bring the release nearer and nobody else's
      put it off. */
  lemma {:induction false} HolderProgresses(n: capacity, s: State, t: Move)
    requires Inv(n, s) && s.owner.Some?
    ensures var c := s.owner.value.client; var s' := Step(s, t);
      if t == Move(c, Tick) && s.pc[c].Unlocking? then s'.owner == None
      else
        && s'.owner == s.owner
        && Work(LocalOf(s', c)) <= Work(LocalOf(s, c)) - if t == Move(c, Tick) then 1 else 0
  {
    var c := s.owner.value.client;
    var a := Replay(n, |s.pos|, s.hist);
    if t == Move(c, Tick) && !s.pc[c].Unlocking? {
      BodyProgresses(n, a.dev, a.pos[c], s.owner.value.call, LocalOf(s, c));
    }
  }

  /** How many of the moves are steps of client `c`. */
  function Ticks(ts: seq<Move>, c: nat): nat {
    if ts == [] then 0
    else Ticks(ts[..|ts| - 1], c) + if ts[|ts| - 1] == Move(c, Tick) then 1 else 0
  }

  /** Somewhere along these moves the lock is free. */
  ghost predicate Frees(s: State, ts: seq<Move>)
    requires |s.pc| == |s.pos|
  {
    exists k :: 0 <= k <= |ts| && Steps(s, ts[..k]).owner == None
  }

  lemma FreesSooner(s: State, ts: seq<Move>, k: nat)
    requires |s.pc| == |s.pos| && k <= |ts| && Frees(s, ts[..k])
    ensures Frees(s, ts)
  {
    var j :| 0 <= j <= k && Steps(s, ts[..k][..j]).owner == None;
    assert ts[..k][..j] == ts[..j];
  }

  lemma {:induction false} HeldUntilFreed(n: capacity, s: State, ts: seq<Move>)
    requires Inv(n, s) && s.owner.Some?
    ensures var c := s.owner.value.client; var s' := Steps(s, ts);
      || Frees(s, ts)
      || (Inv(n, s') && s'.owner == s.owner && Work(LocalOf(s', c)) + Ticks(ts, c) <= Work(LocalOf(s, c)))
  {
    if ts != [] {
      var init, last := ts[..|ts| - 1], ts[|ts| - 1];
      HeldUntilFreed(n, s, init);
      if Frees(s, init) {
        FreesSooner(s, ts, |ts| - 1);
      } else {
        HolderProgresses(n, Steps(s, init), last);
        StepKeeps(n, Steps(s, init), last);
        assert ts[..|ts|] == ts;
      }
    }
  }

  lemma {:induction false} HolderReleases(n: capacity, s: State, ts: seq<Move>)
    requires Inv(n, s) && s.owner.Some?
    requires Ticks(ts, s.owner.value.client) >= Work(LocalOf(s, s.owner.value.client))
    ensures Frees(s, ts)
  {
    HeldUntilFreed(n, s, ts);
  }

  /** Every path that took the lock releases it: in any run, once the holder has made as many
      steps as its call has work left, in whatever company, the lock has been free. */
  lemma {:induction false} LockIsReleased(n: capacity, clients: nat, past: seq<Move>, ts: seq<Move>)
    requires Steps(Start(n, clients), past).owner.Some?
    ensures var s := Steps(Start(n, clients), past); var c := s.owner.value.client;
      && c < |s.pos|
      && (Ticks(ts, c) >= Work(LocalOf(s, c)) ==> Frees(s, ts))
  {
    var s := Steps(Start(n, clients), past);
    StepsKeep(n, clients, past);
    if Ticks(ts, s.owner.value.client) >= Work(LocalOf(s, s.owner.value.client)) {
      HolderReleases(n, s, ts);
    }
  }
}
