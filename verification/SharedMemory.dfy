/** The same steps on shared memory.  In `Interleaving` slots and pending entry hold their bytes;
    here they hold an address and a size as in the driver, the bytes are in blocks that all clients
    share, and krealloc allocates, moves and frees blocks (aesd-char-driver/main.c:380-403).

    Every run of these steps is a run of `Interleaving`, and no step ever touches a freed block. */
module SharedMemory {
  import opened Sequences
  import opened CircularBuffers
  import opened DriverSpec
  import opened Interleaving
  import Callers

  type Address = nat

  /** The blocks allocated and not freed.  An address may come back after it has been freed. */
  type Heap = map<Address, bytes>

  /** What krealloc may do: use the block it has, or move to another address, where anything
      may stand behind the old bytes. */
  datatype Choice = InPlace | Moved(address: Address, junk: bytes)

  /** What the client that holds the lock can see and change. */
  datatype Inside = Inside(ring: Ring<Address>, entry: Entry<Address>, heap: Heap, pos: int, pc: Pc)

  /** The entry's pointer is null, or the block it points to is allocated and large enough. */
  predicate Live(heap: Heap, e: Entry<Address>) {
    match e.buffptr
    case None => e.size == 0
    case Some(p) => p in heap && e.size <= |heap[p]|
  }

  /** The bytes behind an entry. */
  function Behind(heap: Heap, e: Entry<Address>): bytes {
    if e.buffptr.Some? && Live(heap, e) then heap[e.buffptr.value][..e.size] else []
  }

  function EntryView(heap: Heap, e: Entry<Address>): Entry<bytes> {
    Entry(if e.buffptr.Some? then Some(Behind(heap, e)) else None, e.size)
  }

  function RingView(heap: Heap, r: Ring<Address>): (view: Ring<bytes>)
    ensures |view.entry| == |r.entry|
  {
    Ring(seq(|r.entry|, i requires 0 <= i < |r.entry| => EntryView(heap, r.entry[i])),
         r.inOffs, r.outOffs, r.full, r.totalSize)
  }

  function ViewInside(m: Inside): Local {
    Local(RingView(m.heap, m.ring), Behind(m.heap, m.entry), m.pos, m.pc)
  }

  // The steps that touch memory.  One that would touch a block that is not allocated, or go
  // beyond it, changes nothing.

  function CopyOut(m: Inside): Inside
    requires m.pc.CopyingOut?
  {
    var CopyingOut(count, fault, slot, offset) := m.pc;
    if slot < |m.ring.entry| && m.ring.entry[slot].buffptr.Some? && Live(m.heap, m.ring.entry[slot])
       && offset <= m.ring.entry[slot].size then
      var e := m.ring.entry[slot];
      var rest := m.heap[e.buffptr.value][offset..e.size];
      var wanted := Min(|rest|, count);
      var copied := wanted - Min(fault, wanted);
      m.(pos := m.pos + copied, pc := Unlocking(copied, rest[..copied]))
    else m
  }

  /** krealloc can do this: the block is large enough, or the other one is new and large enough. */
  predicate Possible(m: Inside, choice: Choice)
    requires m.pc.Growing?
  {
    match choice
    case InPlace =>
      && m.entry.buffptr.Some? && Live(m.heap, m.entry)
      && m.entry.size + |m.pc.data| <= |m.heap[m.entry.buffptr.value]|
    case Moved(address, junk) => address !in m.heap && Live(m.heap, m.entry) && |junk| >= |m.pc.data|
  }

  /** krealloc to the old size and that of the data: the old block is freed when it moves. */
  function Grow(m: Inside, choice: Choice): Inside
    requires m.pc.Growing? && Possible(m, choice)
  {
    var next := CopyingIn(m.pc.data, m.pc.fault);
    match choice
    case InPlace => m.(pc := next)
    case Moved(address, junk) =>
      var kept := if m.entry.buffptr.Some? then m.heap - {m.entry.buffptr.value} else m.heap;
      m.(heap := kept[address := Behind(m.heap, m.entry) + junk],
         entry := Entry(Some(address), m.entry.size),
         pc := next)
  }

  /** copy_from_user into the block, behind the old bytes. */
  function CopyIn(m: Inside): Inside
    requires m.pc.CopyingIn?
  {
    var accepted := Accepted(m.pc.data, m.pc.fault);
    var to := m.entry.size + |accepted|;
    if m.entry.buffptr.Some? && Live(m.heap, m.entry) && to <= |m.heap[m.entry.buffptr.value]| then
      var p := m.entry.buffptr.value;
      m.(heap := m.heap[p := m.heap[p][..m.entry.size] + accepted + m.heap[p][to..]],
         entry := Entry(Some(p), to),
         pc := Scanning(0, |accepted|))
    else m
  }

  function Scan(m: Inside): Inside
    requires m.pc.Scanning?
  {
    var Scanning(i, ret) := m.pc;
    if i >= m.entry.size then m.(pc := Unlocking(ret, []))
    else if m.entry.buffptr.None? || !Live(m.heap, m.entry) then m
    else if m.heap[m.entry.buffptr.value][i] == NEWLINE then m.(pc := Advancing(i, ret))
    else m.(pc := Scanning(i + 1, ret))
  }

  /** One step of the body of a call. */
  function Body(m: Inside, choice: Choice): Inside {
    if Looks(m.pc) then
      var next := Look(m.ring, m.pos, m.pc);
      m.(pos := next.pos, pc := next.pc)
    else match m.pc
    case CopyingOut(_, _, _, _) => CopyOut(m)
    case Growing(_, _) => if Possible(m, choice) then Grow(m, choice) else m
    case CopyingIn(_, _) => CopyIn(m)
    case Scanning(_, _) => Scan(m)
    case Advancing(i, ret) => m.(ring := AdvanceOut(m.ring), pc := Storing(i, ret))
    case Storing(i, ret) =>
      if m.ring.inOffs < |m.ring.entry| then m.(ring := StoreEntry(m.ring, m.entry), pc := Wrapping(i, ret)) else m
    case Wrapping(i, ret) => m.(ring := WrapIn(m.ring), pc := Clearing(i, ret))
    case Clearing(i, ret) => m.(entry := Entry(None, 0), pc := Scanning(i + 1, ret))
    case _ => m
  }

  /** Every pointer in a slot or the pending entry is null or points to an allocated block. */
  ghost predicate AllLive(heap: Heap, ring: Ring<Address>, entry: Entry<Address>) {
    Live(heap, entry) && forall i :: 0 <= i < |ring.entry| ==> Live(heap, ring.entry[i])
  }

  /** The pending block is in no slot. */
  ghost predicate PendingAlone(ring: Ring<Address>, entry: Entry<Address>) {
    entry.buffptr.Some? ==> forall i :: 0 <= i < |ring.entry| ==> ring.entry[i].buffptr != entry.buffptr
  }

  /** What holds of the memory while the holder of the lock is at `pc`.  Between storing the entry
      in its slot and clearing it, both point to the same block. */
  ghost predicate Sound(heap: Heap, ring: Ring<Address>, entry: Entry<Address>, pc: Pc) {
    && AllLive(heap, ring, entry)
    && match pc
       case CopyingIn(data, _) =>
         PendingAlone(ring, entry) && entry.buffptr.Some? && entry.size + |data| <= |heap[entry.buffptr.value]|
       case Advancing(_, _) => PendingAlone(ring, entry) && entry.buffptr.Some?
       case Storing(_, _) => PendingAlone(ring, entry) && entry.buffptr.Some?
       case Wrapping(_, _) => true
       case Clearing(_, _) => true
       case _ => PendingAlone(ring, entry)
  }

  ghost predicate SoundInside(m: Inside) {
    Sound(m.heap, m.ring, m.entry, m.pc)
  }

  /** A change of the heap that the slots do not notice. */
  lemma RingUntouched(heap: Heap, heap': Heap, ring: Ring<Address>)
    requires forall i :: 0 <= i < |ring.entry| ==> Live(heap, ring.entry[i])
    requires forall i :: 0 <= i < |ring.entry| && ring.entry[i].buffptr.Some? ==>
      var p := ring.entry[i].buffptr.value; p in heap && p in heap' && heap'[p] == heap[p]
    ensures RingView(heap', ring) == RingView(heap, ring)
    ensures forall i :: 0 <= i < |ring.entry| ==> Live(heap', ring.entry[i])
  {
  }

  lemma LookSame(heap: Heap, ring: Ring<Address>, pos: int, pc: Pc)
    requires Looks(pc)
    ensures Look(RingView(heap, ring), pos, pc) == Look(ring, pos, pc)
  {
  }

  lemma GrowSimulates(m: Inside, choice: Choice)
    requires SoundInside(m) && m.pc.Growing? && Possible(m, choice)
    ensures var m' := Grow(m, choice);
      SoundInside(m') && ViewInside(m') == BodyStep(ViewInside(m))
  {
    RingUntouched(m.heap, Grow(m, choice).heap, m.ring);
    var kept := Behind(m.heap, m.entry);
    if choice.Moved? { assert (kept + choice.junk)[..m.entry.size] == kept; }
  }

  lemma CopyInSimulates(m: Inside)
    requires SoundInside(m) && m.pc.CopyingIn?
    ensures var m' := CopyIn(m);
      SoundInside(m') && ViewInside(m') == BodyStep(ViewInside(m))
  {
    var m', p := CopyIn(m), m.entry.buffptr.value;
    RingUntouched(m.heap, m'.heap, m.ring);
    assert m'.heap[p][..m'.entry.size] == m.heap[p][..m.entry.size] + Accepted(m.pc.data, m.pc.fault);
  }

  lemma CopyOutSimulates(m: Inside)
    requires SoundInside(m) && m.pc.CopyingOut?
    ensures SoundInside(CopyOut(m)) && ViewInside(CopyOut(m)) == BodyStep(ViewInside(m))
  {
    var slot, offset := m.pc.slot, m.pc.offset;
    if slot < |m.ring.entry| && m.ring.entry[slot].buffptr.Some? && offset <= m.ring.entry[slot].size {
      var e := m.ring.entry[slot];
      assert m.heap[e.buffptr.value][..e.size][offset..] == m.heap[e.buffptr.value][offset..e.size];
    }
  }

  lemma AddSimulates(m: Inside)
    requires SoundInside(m) && (m.pc.Advancing? || m.pc.Storing? || m.pc.Wrapping? || m.pc.Clearing?)
    ensures var m' := Body(m, InPlace);
      SoundInside(m') && ViewInside(m') == BodyStep(ViewInside(m))
  {
    var m' := Body(m, InPlace);
    if m.pc.Storing? && m.ring.inOffs < |m.ring.entry| {
      assert RingView(m.heap, m'.ring).entry
        == RingView(m.heap, m.ring).entry[m.ring.inOffs := EntryView(m.heap, m.entry)];
    }
  }

  /** Each step of the body keeps the memory sound and is the step of `Interleaving`, seen through
      the pointers; only krealloc may be told to do what it cannot, and then waits. */
  lemma BodySimulates(m: Inside, choice: Choice)
    requires SoundInside(m)
    ensures var m' := Body(m, choice);
      && SoundInside(m')
      && if m.pc.Growing? && !Possible(m, choice) then m' == m else ViewInside(m') == BodyStep(ViewInside(m))
  {
    if Looks(m.pc) {
      LookSame(m.heap, m.ring, m.pos, m.pc);
    } else {
      match m.pc
      case CopyingOut(_, _, _, _) => CopyOutSimulates(m);
      case Growing(_, _) => if Possible(m, choice) { GrowSimulates(m, choice); }
      case CopyingIn(_, _) => CopyInSimulates(m);
      case Scanning(_, _) =>
      case Advancing(_, _) => AddSimulates(m);
      case Storing(_, _) => AddSimulates(m);
      case Wrapping(_, _) => AddSimulates(m);
      case Clearing(_, _) => AddSimulates(m);
      case _ =>
    }
  }

  // The whole system.

  datatype Shared = Shared(ring: Ring<Address>, entry: Entry<Address>, heap: Heap,
                           pos: seq<int>, pc: seq<Pc>, owner: Option<Holder>, hist: seq<Event>)

  /** A step of a client, and what krealloc does in it. */
  datatype Act = Act(move: Move, choice: Choice)

  function Values(s: Shared): State {
    State(RingView(s.heap, s.ring), Behind(s.heap, s.entry), s.pos, s.pc, s.owner, s.hist)
  }

  function InsideOf(s: Shared, c: nat): Inside
    requires c < |s.pc| == |s.pos|
  {
    Inside(s.ring, s.entry, s.heap, s.pos[c], s.pc[c])
  }

  /** The move is a step of a call's body. */
  predicate InBody(pc: seq<Pc>, t: Move) {
    t.client < |pc| && t.action.Tick? && !Outside(pc[t.client]) && !pc[t.client].Unlocking?
  }

  /** One step of one client.  Beginning a call, taking and releasing the lock and returning do
      not touch the memory and are as in `Interleaving`. */
  function Do(s: Shared, a: Act): (s': Shared)
    requires |s.pc| == |s.pos|
    ensures |s'.pc| == |s'.pos| == |s.pos|
  {
    var c := a.move.client;
    if InBody(s.pc, a.move) then
      var m := Body(InsideOf(s, c), a.choice);
      s.(ring := m.ring, entry := m.entry, heap := m.heap, pos := s.pos[c := m.pos], pc := s.pc[c := m.pc])
    else
      var v := Step(Values(s), a.move);
      s.(pos := v.pos, pc := v.pc, owner := v.owner, hist := v.hist)
  }

  function DoAll(s: Shared, acts: seq<Act>): (s': Shared)
    requires |s.pc| == |s.pos|
    ensures |s'.pc| == |s'.pos| == |s.pos|
  {
    if acts == [] then s else Do(DoAll(s, acts[..|acts| - 1]), acts[|acts| - 1])
  }

  function Boot(n: capacity, clients: nat): Shared {
    Shared(Zeroed(n), Entry(None, 0), map[], seq(clients, _ => 0), seq(clients, _ => Idle), None, [])
  }

  /** The memory is sound for where the holder of the lock stands, and seen through the pointers
      the system is in order. */
  ghost predicate Consistent(n: capacity, s: Shared) {
    && |s.pc| == |s.pos|
    && Inv(n, Values(s))
    && Sound(s.heap, s.ring, s.entry, if s.owner.Some? then s.pc[s.owner.value.client] else Idle)
  }

  /** The move is to grow the pending block, and krealloc cannot do what it is told. */
  predicate Waits(s: Shared, a: Act)
    requires |s.pc| == |s.pos|
  {
    var c := a.move.client;
    InBody(s.pc, a.move) && s.pc[c].Growing? && !Possible(InsideOf(s, c), a.choice)
  }

  lemma BodyInOrder(n: capacity, s: Shared, a: Act)
    requires Consistent(n, s) && InBody(s.pc, a.move)
    ensures var s' := Do(s, a);
      Consistent(n, s') && if Waits(s, a) then s' == s else Values(s') == Step(Values(s), a.move)
  {
    var c := a.move.client;
    var m := InsideOf(s, c);
    assert s.owner.Some? && s.owner.value.client == c;
    BodySimulates(m, a.choice);
    BodyIsInstalled(Values(s), c);
    assert LocalOf(Values(s), c) == ViewInside(m);
    if Waits(s, a) {
      assert s.pos[c := s.pos[c]] == s.pos && s.pc[c := s.pc[c]] == s.pc;
    } else {
      StepKeeps(n, Values(s), a.move);
    }
  }

  /** A body may start here, or this is where it ends: nothing has been asked of the memory. */
  predicate AtRest(pc: Pc) {
    pc.Finding? || pc.Growing? || pc.Checking? || pc.Positioning? || pc.Unlocking?
  }

  lemma OutsideStep(n: capacity, s: State, t: Move)
    requires Inv(n, s) && !InBody(s.pc, t)
    ensures var s' := Step(s, t);
      && s'.ring == s.ring && s'.pending == s.pending
      && match s'.owner
         case None => s.owner == None || s.pc[s.owner.value.client].Unlocking?
         case Some(h) =>
           || (s.owner == s'.owner && s'.pc[h.client] == s.pc[h.client])
           || (s.owner == None && AtRest(s'.pc[h.client]))
  {
  }

  lemma OutsideInOrder(n: capacity, s: Shared, a: Act)
    requires Consistent(n, s) && !InBody(s.pc, a.move)
    ensures Consistent(n, Do(s, a)) && Values(Do(s, a)) == Step(Values(s), a.move)
  {
    StepKeeps(n, Values(s), a.move);
    OutsideStep(n, Values(s), a.move);
  }

  lemma BootInOrder(n: capacity, clients: nat)
    ensures Consistent(n, Boot(n, clients)) && Values(Boot(n, clients)) == Start(n, clients)
  {
    StartInv(n, clients);
    assert RingView(map[], Zeroed(n)).entry == Blanks<bytes>(n);
  }

  /** All moves of a run but those that wait. */
  function MovesOf(s: Shared, acts: seq<Act>): seq<Move>
    requires |s.pc| == |s.pos|
  {
    if acts == [] then []
    else
      var init, a := acts[..|acts| - 1], acts[|acts| - 1];
      MovesOf(s, init) + if Waits(DoAll(s, init), a) then [] else [a.move]
  }

  /** Every run on shared memory is, seen through the pointers, the run of its moves on values. */
  lemma {:induction false} RunsAsValues(n: capacity, clients: nat, acts: seq<Act>)
    ensures var s := DoAll(Boot(n, clients), acts);
      Consistent(n, s) && Values(s) == Steps(Start(n, clients), MovesOf(Boot(n, clients), acts))
  {
    BootInOrder(n, clients);
    if acts != [] {
      var init, a := acts[..|acts| - 1], acts[|acts| - 1];
      RunsAsValues(n, clients, init);
      var s, ts := DoAll(Boot(n, clients), init), MovesOf(Boot(n, clients), init);
      if InBody(s.pc, a.move) { BodyInOrder(n, s, a); } else { OutsideInOrder(n, s, a); }
      StepsNext(Start(n, clients), ts, a.move);
      assert ts + [] == ts;
    }
  }

  lemma StepsNext(s: State, ts: seq<Move>, t: Move)
    requires |s.pc| == |s.pos|
    ensures Steps(s, ts + [t]) == Step(Steps(s, ts), t)
  {
    assert (ts + [t])[..|ts|] == ts;
  }

  lemma {:induction false} FreeAddress(heap: Heap) returns (address: Address)
    ensures address !in heap
  {
    address := Above(heap.Keys);
  }

  lemma {:induction false} Above(keys: set<Address>) returns (a: Address)
    ensures forall k :: k in keys ==> k < a
  {
    if keys == {} {
      a := 0;
    } else {
      var k :| k in keys;
      var b := Above(keys - {k});
      a := if b > k then b else k + 1;
      assert forall j :: j in keys ==> j == k || j in keys - {k};
    }
  }

  /** Moving to a free address is always something krealloc can do, so no write need ever wait. */
  lemma {:induction false} GrowthIsPossible(m: Inside) returns (choice: Choice)
    requires SoundInside(m) && m.pc.Growing?
    ensures Possible(m, choice) && Body(m, choice).pc == CopyingIn(m.pc.data, m.pc.fault)
  {
    var address := FreeAddress(m.heap);
    choice := Moved(address, m.pc.data);
  }

  /** What a step does to the set of blocks: nothing, unless krealloc moves the pending block, which
      takes one block in and, if there was an old one, gives just that one back. */
  lemma BlocksChange(m: Inside, choice: Choice)
    requires SoundInside(m)
    ensures var m' := Body(m, choice);
      if m.pc.Growing? && choice.Moved? && m' != m then
        && choice.address !in m.heap && m'.entry.buffptr == Some(choice.address)
        && m'.heap.Keys + (if m.entry.buffptr.Some? then {m.entry.buffptr.value} else {})
           == m.heap.Keys + {choice.address}
        && (m.entry.buffptr.Some? ==> m.entry.buffptr.value !in m'.heap)
      else m'.heap.Keys == m.heap.Keys
  {
  }

  /** Every call begun is carried out, on shared memory too. */
  lemma {:induction false} EverySharedCallIsCarriedOut(n: capacity, clients: nat, acts: seq<Act>, c: nat)
    requires c < clients
    ensures var s := DoAll(Boot(n, clients), acts); var ts := MovesOf(Boot(n, clients), acts);
      && Callers.Finished(s.hist, c) + Callers.UnderWay(Values(s), c) == Callers.Asked(n, clients, ts, c)
      && Callers.Got(n, clients, ts, c) + Callers.Coming(Values(s), c) == Callers.Due(n, clients, ts, c)
  {
    RunsAsValues(n, clients, acts);
    Callers.EveryCallIsCarriedOut(n, clients, MovesOf(Boot(n, clients), acts), c);
    Callers.EveryCallIsAnswered(n, clients, MovesOf(Boot(n, clients), acts), c);
  }

  /** No pointer dangles, in any run: what a slot or the pending entry points to has not been
      freed and holds as many bytes as the entry says; and as long as the lock is free, the
      pending block is in no slot. */
  lemma {:induction false} NoDanglingPointer(n: capacity, clients: nat, acts: seq<Act>)
    ensures var s := DoAll(Boot(n, clients), acts);
      && AllLive(s.heap, s.ring, s.entry)
      && (s.owner == None ==> PendingAlone(s.ring, s.entry))
  {
    RunsAsValues(n, clients, acts);
  }

  /** Concurrency on shared memory refines whole calls: whatever the interleaving and wherever
      blocks are moved to, every finished call has returned what it returns in the run of whole
      calls in lock order, and whenever the lock is free the blocks behind slots and pending
      entry hold the commands and bytes of that run. */
  lemma {:induction false} SharedRunsAsWholeCalls(n: capacity, clients: nat, acts: seq<Act>)
    ensures var s := DoAll(Boot(n, clients), acts); var whole := Replay(n, clients, s.hist);
      && (forall k :: 0 <= k < |s.hist| ==> Agrees(n, clients, s.hist, k))
      && (s.owner == None ==>
            && RingView(s.heap, s.ring) == RingOf(n, whole.dev.log)
            && Behind(s.heap, s.entry) == whole.dev.pending
            && s.pos == whole.pos)
  {
    RunsAsValues(n, clients, acts);
    RunsAsWholeCalls(n, clients, MovesOf(Boot(n, clients), acts));
  }

  /** The block a read has found is still intact when it is copied from: whatever other clients
      have done since, it has not been freed, and from the byte found on it holds just what is
      to be read. */
  lemma {:induction false} BlockStaysIntact(n: capacity, clients: nat, acts: seq<Act>, c: nat)
    requires c < clients && DoAll(Boot(n, clients), acts).pc[c].CopyingOut?
    ensures var s := DoAll(Boot(n, clients), acts);
      var slot, offset := s.pc[c].slot, s.pc[c].offset;
      && slot < |s.ring.entry| && s.ring.entry[slot].buffptr.Some?
      && var p, size := s.ring.entry[slot].buffptr.value, s.ring.entry[slot].size;
      && p in s.heap && offset < size <= |s.heap[p]|
      && s.heap[p][offset..size] == Rest(Window(n, Replay(n, clients, s.hist).dev.log), AsSizeT(s.pos[c]))
  {
    RunsAsValues(n, clients, acts);
    var s := DoAll(Boot(n, clients), acts);
    SlotStaysIntact(n, clients, MovesOf(Boot(n, clients), acts), c);
    var e := s.ring.entry[s.pc[c].slot];
    assert Live(s.heap, e);
    assert s.heap[e.buffptr.value][..e.size][s.pc[c].offset..] == s.heap[e.buffptr.value][s.pc[c].offset..e.size];
  }
}
