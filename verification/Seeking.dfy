/** Seeking (aesd_adjust_file_offset and aesd_llseek) against the lookup that a read does.

    The seek sums slot sizes from the start of the array; the lookup counts from the oldest
    entry.  The two agree exactly when the oldest entry is in slot 0. */
module Seeking {
  import opened Sequences
  import opened CircularBuffers
  import opened DriverSpec
  import Calls

  /** Where `out_offs` stands after `adds` adds. */
  function OutOffs(n: capacity, adds: nat): nat {
    if adds < n then 0 else Turn(adds, n)
  }

  /** The oldest command is in slot 0: the ring has not come round, or has come round whole. */
  predicate AtOrigin(n: capacity, adds: nat) {
    adds < n || adds % n == 0
  }

  ghost predicate Positive(sizes: seq<nat>) {
    forall i :: 0 <= i < |sizes| ==> sizes[i] > 0
  }

  /** The slot and byte a read at position `p` starts from. */
  function SlotAt(n: capacity, sizes: seq<nat>, p: nat): Option<Place> {
    LocateSound(Window(n, sizes), p);
    match Locate(Window(n, sizes), p)
    case None => None
    case Some(at) => Some(Place(SlotOfRank(n, OutOffs(n, |sizes|), at.index), at.offset))
  }

  /** It is what the driver's search finds after these adds. */
  lemma SlotAtIsLookup<P>(n: capacity, log: seq<Entry<P>>, p: nat)
    ensures Lookup(AddAll(n, log), p) == SlotAt(n, EntrySizes(log), p)
  {
    LookupFinds(AddAll(n, log), log, p);
    AddAllShaped(n, log);
    assert EntrySizes(Window(n, log)) == Window(n, EntrySizes(log));
  }

  /** How many commands are older than the one in slot `i`. */
  function RankOfSlot(n: capacity, adds: nat, i: nat): nat
    requires i < Min(n, adds)
  {
    if i >= OutOffs(n, adds) then i - OutOffs(n, adds) else i + n - OutOffs(n, adds)
  }

  /** The position the comment above aesd_adjust_file_offset asks for: the lengths of the
      commands from the output pointer up to `cmd`, plus the offset. */
  function OldestFirstPosition(n: capacity, sizes: seq<nat>, cmd: nat, offset: nat): nat
    requires cmd < Min(n, |sizes|)
  {
    Sum(Window(n, sizes)[..RankOfSlot(n, |sizes|, cmd)]) + offset
  }

  /** Seeking to the `cmd`-th oldest command, for comparison. */
  function NthOldestPosition(n: capacity, sizes: seq<nat>, cmd: nat, offset: nat): Option<nat> {
    var w := Window(n, sizes);
    if cmd < |w| && offset < w[cmd] then Some(Sum(w[..cmd]) + offset) else None
  }

  /** The array is the window, rotated by `outOffs`. */
  lemma WindowOfSlots(n: capacity, sizes: seq<nat>)
    ensures var slots := Physical(n, sizes); var o := OutOffs(n, |sizes|);
      o <= |slots| && Window(n, sizes) == slots[o..] + slots[..o]
  {
  }

  lemma OriginIsOutOffs(n: capacity, adds: nat)
    ensures AtOrigin(n, adds) <==> OutOffs(n, adds) == 0
  {
    TurnIsMod(adds, n);
  }

  /** The heart of the matter, on any slots read round from slot `o`: the sizes before slot
      `i` in array order and in age order have the same sum only when the orders are the same. */
  lemma SumOlder(slots: seq<nat>, o: nat, i: nat)
    requires Positive(slots) && i < |slots| && o < |slots|
    ensures var w := slots[o..] + slots[..o];
      Sum(slots[..i]) == Sum(w[..if i >= o then i - o else i + |slots| - o]) <==> o == 0
  {
    SumRotated(slots, o, i);
    if o > 0 { SumPositive(slots[..o]); }
    SumPositive(slots[o..]);
  }

  lemma PrefixSums(n: capacity, sizes: seq<nat>, i: nat)
    requires Positive(sizes) && i < Min(n, |sizes|)
    ensures Sum(Physical(n, sizes)[..i]) == Sum(Window(n, sizes)[..RankOfSlot(n, |sizes|, i)])
      <==> AtOrigin(n, |sizes|)
  {
    WindowOfSlots(n, sizes);
    OriginIsOutOffs(n, |sizes|);
    PositiveSlots(n, sizes);
    SumOlder(Physical(n, sizes), OutOffs(n, |sizes|), i);
  }

  lemma PositiveSlots(n: capacity, sizes: seq<nat>)
    requires Positive(sizes)
    ensures Positive(Physical(n, sizes))
  {
  }

  /** A seek is accepted exactly for a stored command and an offset inside it, and lands inside
      the data at every rotation, so that the next read finds something. */
  lemma SeekStaysInside(n: capacity, sizes: seq<nat>, cmd: nat, offset: nat)
    ensures var p := SeekPosition(n, sizes, cmd, offset); var slots := Physical(n, sizes);
      && (p.Some? <==> cmd < Min(n, |sizes|) && offset < slots[cmd])
      && (p.Some? ==> p.value < Sum(Window(n, sizes)) && SlotAt(n, sizes, p.value).Some?)
  {
    var slots := Physical(n, sizes);
    if cmd < |slots| && offset < slots[cmd] {
      WindowOfSlots(n, sizes);
      SumRotate(slots, OutOffs(n, |sizes|));
      SumNext(slots, cmd);
      SumSplit(slots, cmd + 1);
      LocateSound(Window(n, sizes), Sum(slots[..cmd]) + offset);
    }
  }

  /** The positions seeks lead to are those of the slots' data end to end in array order: seeking to
      a slot and a byte in it is accepted with position `p` exactly when that byte is the `p`-th in
      array order.  So accepted seeks and the positions inside the contents match one to one. */
  lemma SeekIsArrayOrder(n: capacity, sizes: seq<nat>, cmd: nat, offset: nat, p: nat)
    ensures SeekPosition(n, sizes, cmd, offset) == Some(p) <==>
      Locate(Physical(n, sizes), p) == Some(Place(cmd, offset))
    ensures p < Sum(Window(n, sizes)) <==> Locate(Physical(n, sizes), p).Some?
  {
    var slots := Physical(n, sizes);
    WindowOfSlots(n, sizes);
    SumRotate(slots, OutOffs(n, |sizes|));
    LocateSound(slots, p);
    if cmd < |slots| && offset < slots[cmd] { LocateAt(slots, cmd, offset); }
  }

  /** A later byte in array order has the greater position. */
  lemma SeekKeepsOrder(n: capacity, sizes: seq<nat>, cmd: nat, offset: nat, cmd': nat, offset': nat)
    requires SeekPosition(n, sizes, cmd, offset).Some? && SeekPosition(n, sizes, cmd', offset').Some?
    ensures SeekPosition(n, sizes, cmd, offset).value < SeekPosition(n, sizes, cmd', offset').value <==>
      cmd < cmd' || (cmd == cmd' && offset < offset')
  {
    var slots := Physical(n, sizes);
    SumNext(slots, cmd);
    SumNext(slots, cmd');
    if cmd < cmd' { SumUpTo(slots, cmd + 1, cmd'); }
    if cmd' < cmd { SumUpTo(slots, cmd' + 1, cmd); }
  }

  /** How far a seek is off at every rotation: slots of the lap before, which hold the older
      commands, are put too late by the bytes in the slots of this lap; and slots of this lap too
      early by the bytes in those of the lap before. */
  lemma SeekIsOffBy(n: capacity, sizes: seq<nat>, cmd: nat, offset: nat)
    requires SeekPosition(n, sizes, cmd, offset).Some?
    ensures var p := SeekPosition(n, sizes, cmd, offset).value;
      var right := OldestFirstPosition(n, sizes, cmd, offset);
      var slots, o := Physical(n, sizes), OutOffs(n, |sizes|);
      && o <= |slots|
      && if cmd >= o then p == right + Sum(slots[..o]) else p + Sum(slots[o..]) == right
  {
    WindowOfSlots(n, sizes);
    SumRotated(Physical(n, sizes), OutOffs(n, |sizes|), cmd);
  }

  /** The sizes before slot `i` in the array against those before it when read round from `o`. */
  lemma SumRotated(slots: seq<nat>, o: nat, i: nat)
    requires i < |slots| && o <= |slots|
    ensures var w := slots[o..] + slots[..o];
      if i >= o then Sum(slots[..i]) == Sum(w[..i - o]) + Sum(slots[..o])
      else Sum(slots[..i]) + Sum(slots[o..]) == Sum(w[..i + |slots| - o])
  {
    var w := slots[o..] + slots[..o];
    if i >= o {
      assert slots[..i] == slots[..o] + w[..i - o];
      SumAppend(slots[..o], w[..i - o]);
    } else {
      assert w[..i + |slots| - o] == slots[o..] + slots[..i];
      SumAppend(slots[o..], slots[..i]);
    }
  }

  /** The whole call: accepted exactly for a stored command and a byte inside it, with 0 and the
      position of that byte in array order; refused with -EINVAL and the position untouched. */
  lemma SeekCallIs(n: capacity, dev: Dev, pos: int, cmd: nat, offset: nat)
    ensures var slots := Physical(n, dev.log); var o := SeekCall(n, dev, pos, cmd, offset);
      if cmd < |slots| && offset < |slots[cmd]| then
        && o.ret == 0 && 0 <= o.pos < |Contents(n, dev)|
        && Locate(Sizes(slots), o.pos) == Some(Place(cmd, offset))
      else o.ret == -22 && o.pos == pos
  {
    var sizes := Sizes(dev.log);
    assert Sizes(Physical(n, dev.log)) == Physical(n, sizes);
    SizesWindow(n, dev.log);
    FlatSize(Window(n, dev.log));
    SeekStaysInside(n, sizes, cmd, offset);
    if SeekPosition(n, sizes, cmd, offset).Some? {
      SeekIsArrayOrder(n, sizes, cmd, offset, SeekPosition(n, sizes, cmd, offset).value);
    }
  }

  /** And the read that follows starts in the command, counted by age, that holds this position. */
  lemma {:induction false} SeekThenReadStarts(n: capacity, dev: Dev, pos: int, cmd: nat, offset: nat, count: nat)
    returns (k: nat)
    requires var slots := Physical(n, dev.log); cmd < |slots| && offset < |slots[cmd]|
    ensures var p := SeekCall(n, dev, pos, cmd, offset).pos;
      && 0 <= p < |Contents(n, dev)|
      && Locate(Sizes(Physical(n, dev.log)), p) == Some(Place(cmd, offset))
      && Calls.InCommand(n, dev, p, k) && Calls.EndOf(n, dev, k) <= |Contents(n, dev)|
      && ReadCall(n, dev, p, count, 0).out == Contents(n, dev)[p..Min(p + count, Calls.EndOf(n, dev, k))]
  {
    SeekCallIs(n, dev, pos, cmd, offset);
    k := Calls.ReadDelivers(n, dev, SeekCall(n, dev, pos, cmd, offset).pos, count, 0);
  }

  /** What the comment describes finds the wanted slot and byte at every rotation, and no other
      position does. */
  lemma OldestFirstThenLookup(n: capacity, sizes: seq<nat>, cmd: nat, offset: nat, p: nat)
    requires cmd < Min(n, |sizes|) && offset < Physical(n, sizes)[cmd]
    ensures SlotAt(n, sizes, p) == Some(Place(cmd, offset)) <==> p == OldestFirstPosition(n, sizes, cmd, offset)
  {
    var w, k := Window(n, sizes), RankOfSlot(n, |sizes|, cmd);
    PhysicalRank(n, sizes, OutOffs(n, |sizes|), k);
    LocateAt(w, k, offset);
    LocateSound(w, p);
  }

  /** The code computes what its comment describes exactly at the origin. */
  lemma CodeMeetsComment(n: capacity, sizes: seq<nat>, cmd: nat, offset: nat)
    requires Positive(sizes) && SeekPosition(n, sizes, cmd, offset).Some?
    ensures SeekPosition(n, sizes, cmd, offset) == Some(OldestFirstPosition(n, sizes, cmd, offset))
      <==> AtOrigin(n, |sizes|)
  {
    PrefixSums(n, sizes, cmd);
  }

  /** Seeking and then looking up comes back to the same slot and byte exactly at the origin. */
  lemma SeekThenLookup(n: capacity, sizes: seq<nat>, cmd: nat, offset: nat)
    requires Positive(sizes) && SeekPosition(n, sizes, cmd, offset).Some?
    ensures SlotAt(n, sizes, SeekPosition(n, sizes, cmd, offset).value) == Some(Place(cmd, offset))
      <==> AtOrigin(n, |sizes|)
  {
    CodeMeetsComment(n, sizes, cmd, offset);
    OldestFirstThenLookup(n, sizes, cmd, offset, SeekPosition(n, sizes, cmd, offset).value);
  }

  /** And looking up and then seeking to what was found restores the position exactly there. */
  lemma LookupThenSeek(n: capacity, sizes: seq<nat>, p: nat)
    requires Positive(sizes) && p < Sum(Window(n, sizes))
    ensures match SlotAt(n, sizes, p)
      case None => false
      case Some(found) =>
        && SeekPosition(n, sizes, found.index, found.offset).Some?
        && (SeekPosition(n, sizes, found.index, found.offset) == Some(p) <==> AtOrigin(n, |sizes|))
  {
    LocateSound(Window(n, sizes), p);
    PhysicalRank(n, sizes, OutOffs(n, |sizes|), Locate(Window(n, sizes), p).value.index);
    var found := SlotAt(n, sizes, p).value;
    CodeMeetsComment(n, sizes, found.index, found.offset);
    OldestFirstThenLookup(n, sizes, found.index, found.offset, p);
  }

  /** Counting commands by age instead: the code gives every (command, offset) the answer a
      count from the oldest would exactly when the rotation leaves the sizes as they are. */
  lemma CodeCountsByAge(n: capacity, sizes: seq<nat>)
    ensures (forall cmd: nat, offset: nat ::
              SeekPosition(n, sizes, cmd, offset) == NthOldestPosition(n, sizes, cmd, offset))
      <==> Physical(n, sizes) == Window(n, sizes)
  {
    var slots, w := Physical(n, sizes), Window(n, sizes);
    if slots != w {
      assert |slots| == |w|;
      var i :| 0 <= i < |w| && slots[i] != w[i];
      var offset := Min(slots[i], w[i]);
      assert SeekPosition(n, sizes, i, offset) != NthOldestPosition(n, sizes, i, offset);
    }
  }

  /** The commands "A\n", "B\n" and so on. */
  function Commands(count: nat): (log: seq<bytes>)
    requires count <= 26
    ensures |log| == count
    ensures forall i :: 0 <= i < count ==> log[i] == [65 + i, NEWLINE]
  {
    seq(count, i requires 0 <= i < count => [65 + i, NEWLINE])
  }

  /** For instance, in the driver's ring of ten: once eleven commands have been committed, slot
      0 holds the youngest one, a seek to its start is accepted, and what a read then delivers
      is the command in slot 1. */
  lemma SeekMissesAfterRotation()
    ensures var dev := Dev(Commands(11), []); var sought := SeekCall(10, dev, 0, 0, 0);
      && Physical(10, dev.log)[0] == [75, NEWLINE] && Physical(10, dev.log)[1] == [66, NEWLINE]
      && sought.ret == 0
      && ReadCall(10, dev, sought.pos, 2, 0).out == [66, NEWLINE]
  {
  }

  /** The same on whole calls: after an accepted seek a read delivers something, and at the
      origin it delivers the wanted command from the wanted byte on. */
  lemma {:induction false} SeekThenRead(n: capacity, dev: Dev, pos: int, cmd: nat, offset: nat, count: nat)
    requires Committed(dev) && count > 0
    requires SeekCall(n, dev, pos, cmd, offset).ret == 0
    ensures var read := ReadCall(n, dev, SeekCall(n, dev, pos, cmd, offset).pos, count, 0);
      && read.ret == |read.out| > 0
      && cmd < |Physical(n, dev.log)|
      && (AtOrigin(n, |dev.log|) ==> read.out <= Physical(n, dev.log)[cmd][offset..])
  {
    var sizes := Sizes(dev.log);
    var p := SeekPosition(n, sizes, cmd, offset).value;
    SeekStaysInside(n, sizes, cmd, offset);
    SizesWindow(n, dev.log);
    RestIsLocated(Window(n, dev.log), p);
    LocateSound(Window(n, sizes), p);
    if AtOrigin(n, |dev.log|) {
      PositiveSizes(dev);
      SeekThenLookup(n, sizes, cmd, offset);
      OriginIsOutOffs(n, |sizes|);
      PhysicalRank(n, dev.log, OutOffs(n, |sizes|), cmd);
      var w := Window(n, dev.log);
      assert Rest(w, p) == w[cmd][offset..];
    }
  }

  lemma PositiveSizes(dev: Dev)
    requires Committed(dev)
    ensures Positive(Sizes(dev.log))
  {
  }

  /** The size counter is the live length exactly when that fits its 8 bits and the evicted
      bytes happen to cancel; only then does llseek know the true end of the data. */
  lemma SizeCounter(n: capacity, dev: Dev)
    ensures TotalSize(dev) == |Contents(n, dev)|
      <==> |Contents(n, dev)| < 256 && |Flat(Evicted(n, dev.log))| % 256 == 0
  {
    WindowSplit(n, dev.log);
    FlatAppend(Evicted(n, dev.log), Window(n, dev.log));
    FlatSize(dev.log);
    LowByte(|Flat(Evicted(n, dev.log))|, |Contents(n, dev)|);
  }

  /** For instance, after one command of 256 bytes the counter is 0. */
  lemma CounterMissesLongCommand(n: capacity, command: bytes)
    requires |command| == 256
    ensures var dev := Dev([command], []);
      TotalSize(dev) == 0 && |Contents(n, dev)| == 256 && LlseekCall(dev, Granted(256)).pos == 0
  {
    var dev := Dev([command], []);
    assert Sizes(dev.log) == [256] && Sum([256]) == 256;
    assert Window(n, dev.log) == [command];
    Singleton(command);
  }

  lemma Singleton(command: bytes)
    ensures Flat([command]) == command
  {
  }

  lemma LowByte(gone: nat, live: nat)
    ensures (gone + live) % 256 == live <==> live < 256 && gone % 256 == 0
  {
  }

  /** Seeking to the end by llseek, and then reading, meets the end of the data exactly when the
      counter has reached it. */
  lemma SeekEndThenRead(n: capacity, dev: Dev, want: nat)
    requires want >= TotalSize(dev)
    ensures var end := LlseekCall(dev, Granted(want));
      && (end.pos == |Contents(n, dev)| <==> |Contents(n, dev)| < 256 && |Flat(Evicted(n, dev.log))| % 256 == 0)
      && (Rest(Window(n, dev.log), AsSizeT(end.pos)) == [] <==> |Contents(n, dev)| <= TotalSize(dev))
  {
    SizeCounter(n, dev);
    RestInFlat(Window(n, dev.log), TotalSize(dev));
  }

  /** A refused llseek leaves minus the error number as the position.  Called at that position,
      aesd_read takes it for an offset close to 2^64, finds nothing and starts over at 0, as
      long as there is no more data than that. */
  lemma FailedSeekThenRead(n: capacity, dev: Dev, errno: nat, count: nat, fault: nat)
    requires 0 < errno <= 0x8000_0000_0000_0000
    ensures var failed := LlseekCall(dev, Refused(errno));
      && failed.pos == failed.ret == 0 - errno
      && (Rest(Window(n, dev.log), AsSizeT(failed.pos)) == [] <==> |Contents(n, dev)| <= TWO_TO_THE_64 - errno)
      && (|Contents(n, dev)| <= TWO_TO_THE_64 - errno ==>
            ReadCall(n, dev, failed.pos, count, fault) == Outcome(dev, 0, 0, []))
  {
    var pos: int := 0 - errno;
    assert AsSizeT(pos) == TWO_TO_THE_64 - errno;
    RestInFlat(Window(n, dev.log), TWO_TO_THE_64 - errno);
  }
}
