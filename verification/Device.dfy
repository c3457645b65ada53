/** The driver itself (aesd-char-driver/main.c): one device shared by all open files, with
    real memory blocks behind the ring slots and the pending entry.

    Each method is one file operation, from taking the lock to releasing it; its contract is
    the matching call of `DriverSpec`.  The ghost state records who owns each memory block. */
module Devices {
  import opened Sequences
  import opened CircularBuffers
  import opened DriverSpec

  type Block = array<byte>

  /** `filp->f_pos` */
  class File {
    var pos: int

    constructor ()
      ensures pos == 0
    {
      pos := 0;
    }
  }

  /** The blocks some entries point to. */
  ghost function Blocks(entries: seq<Entry<Block>>): set<Block> {
    set k | 0 <= k < |entries| && entries[k].buffptr.Some? :: entries[k].buffptr.value
  }

  /** `e` points to a block that holds `content`. */
  ghost predicate Holds(e: Entry<Block>, content: bytes)
    reads BlockOf(e)
  {
    && e.buffptr.Some?
    && e.size == |content| <= e.buffptr.value.Length
    && e.buffptr.value[..e.size] == content
  }

  ghost function BlockOf(e: Entry<Block>): set<Block> {
    if e.buffptr.Some? then {e.buffptr.value} else {}
  }

  lemma BlocksConcat(a: seq<Entry<Block>>, b: seq<Entry<Block>>)
    ensures Blocks(a + b) == Blocks(a) + Blocks(b)
  {
    var both := a + b;
    forall block | block in Blocks(a) + Blocks(b)
      ensures block in Blocks(both)
    {
      if block in Blocks(a) {
        var k :| 0 <= k < |a| && a[k].buffptr == Some(block);
        assert both[k].buffptr == Some(block);
      } else {
        var k :| 0 <= k < |b| && b[k].buffptr == Some(block);
        assert both[|a| + k].buffptr == Some(block);
      }
    }
  }

  lemma BlocksAppend(log: seq<Entry<Block>>, e: Entry<Block>)
    ensures Blocks(log + [e]) == Blocks(log) + BlockOf(e)
  {
    BlocksConcat(log, [e]);
    assert e.buffptr.Some? ==> [e][0].buffptr == Some(e.buffptr.value);
  }

  lemma BlocksRotated(entries: seq<Entry<Block>>, k: nat)
    requires k <= |entries|
    ensures Blocks(entries[k..] + entries[..k]) == Blocks(entries)
  {
    BlocksConcat(entries[k..], entries[..k]);
    BlocksConcat(entries[..k], entries[k..]);
    assert entries == entries[..k] + entries[k..];
  }

  /** Entries that share no block have as many blocks as they are. */
  lemma {:induction false} BlocksCount(entries: seq<Entry<Block>>)
    requires forall k :: 0 <= k < |entries| ==> entries[k].buffptr.Some?
    requires forall j, k :: 0 <= j < k < |entries| ==> entries[j].buffptr != entries[k].buffptr
    ensures |Blocks(entries)| == |entries|
  {
    if entries != [] {
      var init, last := entries[..|entries| - 1], entries[|entries| - 1];
      assert entries == init + [last];
      BlocksCount(init);
      BlocksAppend(init, last);
    }
  }

  lemma SliceOfSlice<T>(s: seq<T>, from: nat, to: nat, count: nat)
    requires from + count <= to <= |s|
    ensures s[from..to][..count] == s[from..from + count]
  {
  }

  class Device {
    const buffer: CircularBuffer<Block>
    var entry: Entry<Block>

    // The simple state this device stands for.
    ghost var log: seq<bytes>
    ghost var pending: bytes

    // Every block krealloc ever handed out, and those given back.
    ghost var handedOut: set<Block>
    ghost var freed: set<Block>

    ghost function Abs(): Dev
      reads this
    {
      Dev(log, pending)
    }

    function Capacity(): int {
      buffer.entry.Length
    }

    /** No two entries, committed or pending, share a block, and every block ever handed out
        is freed, pending, or still pointed to by the log. */
    ghost predicate Owned()
      reads this, buffer
    {
      && (forall j, k :: 0 <= j < k < |buffer.log| ==> buffer.log[j].buffptr != buffer.log[k].buffptr)
      && (forall k :: 0 <= k < |buffer.log| ==> buffer.log[k].buffptr.Some? && buffer.log[k].buffptr != entry.buffptr)
      && handedOut == freed + Blocks(buffer.log) + BlockOf(entry)
      && freed !! Blocks(buffer.log) + BlockOf(entry)
    }

    ghost predicate Valid()
      reads this, buffer, buffer.entry, Blocks(buffer.log), BlockOf(entry)
    {
      && 1 <= buffer.entry.Length < 256
      && buffer.Valid()
      && Owned()
      && |log| == |buffer.log|
      && (forall k :: 0 <= k < |log| ==> Holds(buffer.log[k], log[k]))
      && (if entry.buffptr == None then entry.size == 0 && pending == [] else Holds(entry, pending))
    }

    /** aesd_init_module: all zero */
    constructor (n: capacity)
      ensures Valid() && fresh(buffer) && fresh(buffer.entry) && entry.buffptr == None
      ensures Capacity() == n && Abs() == Dev([], [])
      ensures handedOut == {}
    {
      buffer := new CircularBuffer<Block>(n);
      entry := Entry(None, 0);
      log, pending, handedOut, freed := [], [], {}, {};
      new;
      assert Blocks(buffer.log) == {};
    }

    /** The sizes the ring works with are those of the commands. */
    lemma LogSizes()
      requires Valid()
      ensures EntrySizes(buffer.log) == Sizes(log)
      ensures EntrySizes(Window(Capacity(), buffer.log)) == Sizes(Window(Capacity(), log))
    {
    }

    /** `found` is the slot and the byte from which a read at `charOffset` has to copy. */
    ghost predicate Leads(charOffset: nat, found: Option<Place>)
      requires 1 <= buffer.entry.Length
      reads this, buffer, buffer.entry
      reads set k | 0 <= k < buffer.entry.Length && buffer.entry[k].buffptr.Some? :: buffer.entry[k].buffptr.value
    {
      var rest := Rest(Window(Capacity(), log), charOffset);
      match found
      case None => rest == []
      case Some(place) =>
        && place.index < buffer.entry.Length
        && var e := buffer.entry[place.index];
        && e.buffptr.Some? && place.offset < e.size <= e.buffptr.value.Length
        && rest == e.buffptr.value[place.offset..e.size]
    }

    lemma WindowHolds(k: nat)
      requires Valid() && k < |Window(Capacity(), log)|
      ensures Holds(Window(Capacity(), buffer.log)[k], Window(Capacity(), log)[k])
    {
      assert Holds(buffer.log[|log| - Min(Capacity(), |log|) + k], log[|log| - Min(Capacity(), |log|) + k]);
    }

    /** The slot the lookup finds holds, from the byte it names on, what is to be read. */
    lemma FoundLeads(charOffset: nat, found: Option<Place>)
      requires Valid() && Finds(buffer.Value(), buffer.log, charOffset, found)
      ensures Leads(charOffset, found)
    {
      LogSizes();
      RestIsLocated(Window(Capacity(), log), charOffset);
      if found.Some? {
        var k := Locate(Sizes(Window(Capacity(), log)), charOffset).value.index;
        WindowHolds(k);
      }
    }

    method Find(charOffset: nat) returns (found: Option<Place>)
      requires Valid()
      ensures Leads(charOffset, found)
    {
      found := buffer.FindEntryOffsetForFpos(charOffset);
      FoundLeads(charOffset, found);
    }

    /** aesd_read between taking and releasing the lock: look up, copy out, move on.  No
        further than the end of the command found. */
    method ReadLocked(pos: int, count: nat, fault: nat) returns (pos': int, ret: int, out: bytes)
      requires Valid()
      ensures Outcome(Abs(), pos', ret, out) == ReadCall(Capacity(), Abs(), pos, count, fault)
    {
      var found := Find(AsSizeT(pos));
      if found == None {
        return 0, 0, [];
      }
      out := CopyOut(buffer.entry[found.value.index], found.value.offset, count, fault);
      ret := |out|;
      pos' := pos + ret;
    }

    /** The part of a read after the lookup: how much of the entry, and copy_to_user. */
    method CopyOut(e: Entry<Block>, offset: nat, count: nat, fault: nat) returns (out: bytes)
      requires e.buffptr.Some? && offset < e.size <= e.buffptr.value.Length
      ensures var wanted := Min(e.size - offset, count);
        |out| == wanted - Min(fault, wanted) && out == e.buffptr.value[offset..e.size][..|out|]
    {
      var numOfWrites := e.size - offset;
      if count < numOfWrites {
        numOfWrites := count;
      }
      var notCopied := Min(fault, numOfWrites);
      var copied := numOfWrites - notCopied;
      SliceOfSlice(e.buffptr.value[..], offset, e.size, copied);
      out := e.buffptr.value[offset..offset + copied];
    }

    /** aesd_read */
    method Read(filp: File, count: nat, fault: nat, interrupted: bool) returns (ret: int, out: bytes)
      requires Valid()
      modifies filp
      ensures interrupted ==> ret == -ERESTARTSYS && out == [] && filp.pos == old(filp.pos)
      ensures !interrupted ==>
        Outcome(Abs(), filp.pos, ret, out) == ReadCall(Capacity(), Abs(), old(filp.pos), count, fault)
    {
      if interrupted {
        return -ERESTARTSYS, [];
      }
      var pos;
      pos, ret, out := ReadLocked(filp.pos, count, fault);
      filp.pos := pos;
    }

    /** A new block with the pending bytes in it. */
    method Moved(length: nat) returns (block: Block)
      requires Valid() && entry.size <= length
      ensures fresh(block) && block.Length == length && block[..entry.size] == pending
    {
      block := new byte[length];
      if entry.buffptr.Some? {
        forall j | 0 <= j < entry.size {
          block[j] := entry.buffptr.value[j];
        }
      }
    }

    /** krealloc, never failing: the same block when it is large enough, otherwise a new one
        with the old bytes and the old block freed.  `slack` is how much larger than asked
        the new block is. */
    method Grow(newSize: nat, slack: nat)
      requires Valid() && entry.size <= newSize
      modifies this`entry, this`handedOut, this`freed
      ensures Valid() && Abs() == old(Abs())
      ensures entry.buffptr.Some? && newSize <= entry.buffptr.value.Length && entry.size == old(entry.size)
      ensures entry.buffptr == old(entry.buffptr) || fresh(entry.buffptr.value)
      ensures old(handedOut) <= handedOut && old(freed) <= freed
    {
      if entry.buffptr.Some? && newSize <= entry.buffptr.value.Length {
        return;
      }
      var block := Moved(newSize + slack);
      if entry.buffptr.Some? {
        freed := freed + {entry.buffptr.value};
      }
      handedOut := handedOut + {block};
      entry := entry.(buffptr := Some(block));
      assert Holds(entry, pending);
      forall k | 0 <= k < |log|
        ensures Holds(buffer.log[k], log[k]) && buffer.log[k].buffptr != entry.buffptr
      {
        assert old(Holds(buffer.log[k], log[k]));
      }
    }

    /** copy_from_user of the bytes that do get copied, and the growth of the pending entry. */
    method CopyIn(accepted: bytes)
      requires Valid() && entry.buffptr.Some?
      requires entry.size + |accepted| <= entry.buffptr.value.Length
      modifies this`entry, this`pending, entry.buffptr.value
      ensures Valid() && entry.buffptr == old(entry.buffptr)
      ensures Abs() == old(Abs()).(pending := old(pending) + accepted)
    {
      var size := entry.size;
      forall j | 0 <= j < |accepted| {
        entry.buffptr.value[size + j] := accepted[j];
      }
      entry := entry.(size := size + |accepted|);
      pending := pending + accepted;
    }

    /** The newline scan: the first newline commits the whole pending entry, and the loop then
        finds nothing more to scan. */
    method Scan()
      requires Valid() && entry.buffptr.Some?
      modifies this`entry, this`log, this`pending, buffer, buffer.entry
      ensures Valid()
      ensures Abs() == if NEWLINE in old(pending) then Dev(old(log) + [old(pending)], []) else old(Abs())
      ensures buffer.log == old(buffer.log) || buffer.log == old(buffer.log) + [old(entry)]
      ensures entry == if log == old(log) then old(entry) else Entry(None, 0)
    {
      ghost var line := pending;
      var i := 0;
      while i < entry.size
        invariant Valid()
        invariant (Abs() == old(Abs()) && entry == old(entry) && buffer.log == old(buffer.log)
                   && i <= entry.size && NEWLINE !in line[..i])
               || (NEWLINE in line && Abs() == Dev(old(log) + [line], []) && entry == Entry(None, 0)
                   && buffer.log == old(buffer.log) + [old(entry)])
        decreases if i < entry.size then entry.size - i else 0
      {
        if entry.buffptr.value[i] == NEWLINE {
          assert line[i] == NEWLINE;
          Commit();
        }
        i := i + 1;
      }
    }

    /** Hand the pending entry over to the ring: pointer, size and all. */
    method Commit()
      requires Valid() && entry.buffptr.Some?
      modifies this`entry, this`log, this`pending, buffer, buffer.entry
      ensures Valid()
      ensures Abs() == Dev(old(log) + [old(pending)], [])
      ensures entry == Entry(None, 0)
      ensures buffer.log == old(buffer.log) + [old(entry)]
    {
      BlocksAppend(buffer.log, entry);
      buffer.AddEntry(entry);
      log := log + [pending];
      entry := Entry(None, 0);
      pending := [];
      forall k | 0 <= k < |log|
        ensures Holds(buffer.log[k], log[k])
      {
        if k < |old(log)| { assert old(Holds(buffer.log[k], log[k])); }
      }
    }

    /** aesd_write */
    method Write(data: bytes, fault: nat, slack: nat, interrupted: bool) returns (ret: int)
      requires Valid()
      modifies this, buffer, buffer.entry, BlockOf(entry)
      ensures Valid() && fresh(BlockOf(entry) - old(BlockOf(entry)))
      ensures old(handedOut) <= handedOut && old(freed) <= freed
      ensures log != old(log) ==> entry.buffptr == None
      ensures interrupted ==> ret == -ERESTARTSYS && Abs() == old(Abs())
      ensures !interrupted ==>
        Outcome(Abs(), 0, ret, []) == WriteCall(old(Abs()), 0, data, fault)
    {
      if interrupted {
        return -ERESTARTSYS;
      }
      ret := Append(data, fault, slack);
      Scan();
    }

    /** The part of a write before the newline scan. */
    method Append(data: bytes, fault: nat, slack: nat) returns (ret: int)
      requires Valid()
      modifies this`entry, this`pending, this`handedOut, this`freed, BlockOf(entry)
      ensures Valid() && entry.buffptr.Some? && fresh(BlockOf(entry) - old(BlockOf(entry)))
      ensures old(handedOut) <= handedOut && old(freed) <= freed
      ensures Abs() == old(Abs()).(pending := old(pending) + Accepted(data, fault))
      ensures ret == |Accepted(data, fault)|
    {
      Grow(entry.size + |data|, slack);
      var numNotCopied := Min(fault, |data|);
      CopyIn(data[..|data| - numNotCopied]);
      ret := |data| - numNotCopied;
    }

    /** The array slots, with their blocks and sizes, told from the log. */
    lemma Slots()
      requires Valid()
      ensures var sizes := Physical(Capacity(), Sizes(log));
        && |sizes| <= Capacity()
        && (forall i :: 0 <= i < Capacity() ==> (buffer.entry[i].buffptr.Some? <==> i < |sizes|))
        && (forall i :: 0 <= i < |sizes| ==> buffer.entry[i].size == sizes[i])
    {
      LogSizes();
      PhysicalSlots(buffer.Value(), buffer.log);
      PhysicalSizes(Capacity(), buffer.log);
      forall i | 0 <= i < |Physical(Capacity(), buffer.log)|
        ensures buffer.entry[i].buffptr.Some?
      {
        assert buffer.Value().entry[i] == buffer.log[LogIndex(Capacity(), |buffer.log|, i)];
      }
    }

    /** aesd_adjust_file_offset: three checks, then the sizes of the slots before `writeCmd`
        summed from the START of the array, wherever its oldest entry is. */
    method AdjustFileOffset(filp: File, writeCmd: nat, writeCmdOffset: nat) returns (ret: int)
      requires Valid()
      modifies filp
      ensures Outcome(Abs(), filp.pos, ret, []) == SeekCall(Capacity(), Abs(), old(filp.pos), writeCmd, writeCmdOffset)
    {
      Slots();
      if writeCmd >= Capacity() {
        return -EINVAL;
      }
      if buffer.entry[writeCmd].buffptr == None {
        return -EINVAL;
      }
      if buffer.entry[writeCmd].size <= writeCmdOffset {
        return -EINVAL;
      }
      ghost var sizes := Physical(Capacity(), Sizes(log));
      var totalLen, i := 0, 0;
      while i < Capacity()
        invariant i <= writeCmd
        invariant totalLen == Sum(sizes[..i])
      {
        if i == writeCmd {
          totalLen := totalLen + writeCmdOffset;
          break;
        }
        SumNext(sizes, i);
        totalLen := totalLen + buffer.entry[i].size;
        i := i + 1;
      }
      filp.pos := totalLen;
      return 0;
    }

    /** aesd_ioctl.  `seekTo` says whether the request is AESDCHAR_IOCSEEKTO, `arg` is what
        copy_from_user brings in, or nothing when it fails. */
    method Ioctl(filp: File, seekTo: bool, arg: Option<(nat, nat)>, interrupted: bool) returns (ret: int)
      requires Valid()
      modifies filp
      ensures interrupted ==> ret == -ERESTARTSYS && filp.pos == old(filp.pos)
      ensures !interrupted ==>
        var call := if !seekTo then OtherIoctl else if arg == None then BadSeekTo else SeekTo(arg.value.0, arg.value.1);
        Outcome(Abs(), filp.pos, ret, []) == Apply(Capacity(), Abs(), old(filp.pos), call)
    {
      if interrupted {
        return -ERESTARTSYS;
      }
      if !seekTo {
        return -ENOTTY;
      }
      if arg == None {
        return EFAULT;
      }
      ret := AdjustFileOffset(filp, arg.value.0, arg.value.1);
    }

    /** aesd_llseek: the size handed to fixed_size_llseek is `total_size`, and its answer is
        stored without a look at its sign. */
    method Llseek(filp: File, answer: Answer, interrupted: bool) returns (ret: int)
      requires Valid()
      modifies filp
      ensures interrupted ==> ret == -ERESTARTSYS && filp.pos == old(filp.pos)
      ensures !interrupted ==> Outcome(Abs(), filp.pos, ret, []) == LlseekCall(Abs(), answer)
    {
      if interrupted {
        return -ERESTARTSYS;
      }
      LogSizes();
      AddAllShaped(Capacity(), buffer.log);
      var filePos: int;
      match answer {
        case Granted(want) => filePos := Min(want, buffer.totalSize);
        case Refused(errno) => filePos := 0 - errno;
      }
      filp.pos := filePos;
      return filePos;
    }

    /** Blocks the ring's slots point to. */
    ghost function RingBlocks(): set<Block>
      reads this, buffer, buffer.entry
    {
      Blocks(buffer.entry[..])
    }

    /** Blocks that fell out of the ring. */
    ghost function EvictedBlocks(): set<Block>
      reads this, buffer
    {
      Blocks(Evicted(Capacity(), buffer.log))
    }

    lemma RingBlocksAreWindow()
      requires Valid()
      ensures RingBlocks() == Blocks(Window(Capacity(), buffer.log))
    {
      var r, w := buffer.Value(), Window(Capacity(), buffer.log);
      AddAllShaped(Capacity(), buffer.log);
      BlocksRotated(r.entry, r.outOffs);
      BlocksConcat(w, Blanks(Capacity() - |w|));
    }

    /** Every block ever handed out is in exactly one of four places: given back, pending, in
        the ring, or evicted from it and never given back. */
    lemma Ownership()
      requires Valid()
      ensures handedOut == freed + BlockOf(entry) + RingBlocks() + EvictedBlocks()
      ensures freed !! BlockOf(entry) !! RingBlocks() !! EvictedBlocks()
    {
      RingBlocksAreWindow();
      var n, all := Capacity(), buffer.log;
      WindowSplit(n, all);
      BlocksConcat(Evicted(n, all), Window(n, all));
    }

    /** No two slots share a block. */
    lemma SlotsApart(j: nat, k: nat)
      requires Valid() && j < k < Capacity() && buffer.entry[j].buffptr.Some?
      ensures buffer.entry[j].buffptr != buffer.entry[k].buffptr
    {
      var n, all := Capacity(), buffer.log;
      PhysicalSlots(buffer.Value(), all);
      var slots := buffer.Value().entry;
      if slots[k].buffptr.Some? {
        assert slots[j] == all[LogIndex(n, |all|, j)];
        assert slots[k] == all[LogIndex(n, |all|, k)];
      }
    }

    /** kfree: of nothing, or of a block that is not already given back. */
    method Kfree(p: Option<Block>)
      requires p.Some? ==> p.value in handedOut && p.value !in freed
      modifies this`freed
      ensures freed == old(freed) + if p.Some? then {p.value} else {}
    {
      if p.Some? {
        freed := freed + {p.value};
      }
    }

    /** aesd_cleanup_module: every block in the ring is given back once.  What is left are the
        evicted blocks and the pending one. */
    method Cleanup()
      requires Valid()
      modifies this`freed
      ensures freed == old(freed) + RingBlocks() && old(freed) !! RingBlocks()
      ensures handedOut - freed == BlockOf(entry) + EvictedBlocks()
    {
      Ownership();
      ghost var slots := buffer.entry[..];
      forall j, k | 0 <= j < k < |slots| && slots[j].buffptr.Some?
        ensures slots[j].buffptr != slots[k].buffptr
      {
        SlotsApart(j, k);
      }
      var index := 0;
      while index < Capacity()
        invariant index <= Capacity()
        invariant freed == old(freed) + Blocks(slots[..index])
      {
        BlocksAppend(slots[..index], slots[index]);
        assert slots[..index + 1] == slots[..index] + [slots[index]];
        assert slots[index].buffptr.Some? ==> slots[index].buffptr.value in Blocks(slots);
        Kfree(buffer.entry[index].buffptr);
        index := index + 1;
      }
      assert slots[..index] == slots;
    }

    /** So what is left behind are as many blocks as commands have been evicted, and the pending
        block if there is one: nothing exactly when no command was evicted and none is pending. */
    lemma CleanAfterCleanup()
      requires Valid()
      ensures |BlockOf(entry) + EvictedBlocks()| == |log| - Min(Capacity(), |log|) + |BlockOf(entry)|
      ensures BlockOf(entry) + EvictedBlocks() == {} <==> |log| <= Capacity() && entry.buffptr == None
    {
      Ownership();
      BlocksCount(Evicted(Capacity(), buffer.log));
      assert |BlockOf(entry) + EvictedBlocks()| == |BlockOf(entry)| + |EvictedBlocks()|;
    }
  }
}
