/** The ring of commands (aesd-circular-buffer.c, aesd-circular-buffer.h).

    `CircularBuffer` is the struct and its functions; `Ring` is the value of its fields at
    one moment.  `Represents` relates such a value to the whole history of adds, the log:
    a closed form for every field, and the slots read from `outOffs` round the array. */
module CircularBuffers {
  import opened Sequences

  /** The field width of `in_offs`, `out_offs` and `total_size`. */
  type uint8 = x: int | 0 <= x < 256

  /** The capacity, 10 in the source: any capacity its `uint8_t` indices can count to. */
  type capacity = n: int | 1 <= n < 256 witness 1

  /** `buffptr` is `None` for the C null pointer. */
  datatype Entry<+P> = Entry(buffptr: Option<P>, size: nat)

  datatype Ring<+P> = Ring(entry: seq<Entry<P>>, inOffs: nat, outOffs: nat, full: bool, totalSize: nat)

  function EntrySizes<P>(entries: seq<Entry<P>>): (sizes: seq<nat>)
    ensures |sizes| == |entries|
    ensures forall i :: 0 <= i < |entries| ==> sizes[i] == entries[i].size
  {
    seq(|entries|, i requires 0 <= i < |entries| => entries[i].size)
  }

  /** Slots no add has reached: all bits zero. */
  function Blanks<P>(n: nat): (blanks: seq<Entry<P>>)
    ensures |blanks| == n
    ensures forall i :: 0 <= i < n ==> blanks[i] == Entry(None, 0)
  {
    seq(n, _ => Entry(None, 0))
  }

  function Zeroed<P>(n: capacity): Ring<P> {
    Ring(Blanks(n), 0, 0, false, 0)
  }

  /** The slots in reading order, oldest first. */
  function Ordered<P>(r: Ring<P>): seq<Entry<P>>
    requires r.outOffs <= |r.entry|
  {
    r.entry[r.outOffs..] + r.entry[..r.outOffs]
  }

  /** An index that starts at 0 and has been stepped round `n` slots `count` times. */
  function Turn(count: nat, n: nat): (i: nat)
    requires n > 0
    ensures i < n
    ensures count < n ==> i == count
  {
    if count == 0 then 0 else if Turn(count - 1, n) + 1 == n then 0 else Turn(count - 1, n) + 1
  }

  // The groups of assignments of aesd_circular_buffer_add_entry, in order.

  function AdvanceOut<P>(r: Ring<P>): Ring<P> {
    if r.full then r.(outOffs := if r.outOffs + 1 == |r.entry| then 0 else r.outOffs + 1) else r
  }

  function StoreEntry<P>(r: Ring<P>, e: Entry<P>): Ring<P>
    requires r.inOffs < |r.entry|
  {
    r.(entry := r.entry[r.inOffs := e],
       inOffs := r.inOffs + 1,
       totalSize := (r.totalSize + e.size) % 256)
  }

  function WrapIn<P>(r: Ring<P>): Ring<P> {
    if r.inOffs == |r.entry| then r.(inOffs := r.outOffs, full := true) else r
  }

  function Added<P>(r: Ring<P>, e: Entry<P>): Ring<P>
    requires r.inOffs < |r.entry|
  {
    WrapIn(StoreEntry(AdvanceOut(r), e))
  }

  /** Where slot number `k` in reading order lies in the array. */
  function SlotOfRank(n: nat, outOffs: nat, k: nat): nat
    requires outOffs < n && k < n
  {
    if outOffs + k < n then outOffs + k else outOffs + k - n
  }

  /** The answer of the offset lookup: the slot, and the byte in it. */
  function Lookup<P>(r: Ring<P>, charOffset: nat): Option<Place>
    requires r.outOffs < |r.entry|
  {
    LocateSound(EntrySizes(Ordered(r)), charOffset);
    match Locate(EntrySizes(Ordered(r)), charOffset)
    case None => None
    case Some(at) => Some(Place(SlotOfRank(|r.entry|, r.outOffs, at.index), at.offset))
  }

  lemma {:induction false} TurnIsMod(count: nat, n: nat)
    requires n > 0
    ensures Turn(count, n) == count % n
  {
    if count == 0 {
      ModUnique(0, n, 0, 0);
    } else {
      TurnIsMod(count - 1, n);
      var q := (count - 1) / n;
      assert count - 1 == q * n + (count - 1) % n;
      if Turn(count, n) == 0 {
        assert count == (q + 1) * n;
        ModUnique(count, n, q + 1, 0);
      } else {
        ModUnique(count, n, q, Turn(count, n));
      }
    }
  }

  lemma ModUnique(i: nat, n: nat, q: nat, rest: nat)
    requires rest < n && i == q * n + rest
    ensures i % n == rest
  {
    var d := i / n - q;
    assert d * n == rest - i % n;
    MulApart(d, n);
  }

  lemma MulApart(d: int, n: nat)
    ensures d >= 1 ==> d * n >= n
    ensures d <= -1 ==> d * n + n <= 0
  {
    if d >= 1 {
      assert d * n == (d - 1) * n + n;
    } else {
      assert d * n + n == (d + 1) * n;
    }
  }

  /** The ring after a run of adds to a zeroed one. */
  function AddAll<P>(n: capacity, log: seq<Entry<P>>): (r: Ring<P>)
    ensures |r.entry| == n && r.inOffs < n && r.outOffs < n
  {
    if log == [] then Zeroed(n) else Added(AddAll(n, log[..|log| - 1]), log[|log| - 1])
  }

  /** `r` is what a ring of its capacity holds after the adds in `log`. */
  ghost predicate Represents<P>(r: Ring<P>, log: seq<Entry<P>>) {
    1 <= |r.entry| < 256 && r == AddAll(|r.entry|, log)
  }

  lemma AddedRepresents<P>(r: Ring<P>, log: seq<Entry<P>>, e: Entry<P>)
    requires Represents(r, log)
    ensures r.inOffs < |r.entry| && Represents(Added(r, e), log + [e])
  {
    assert (log + [e])[..|log + [e]| - 1] == log;
  }

  /** The closed form of such a ring: every field, and the slots in reading order. */
  ghost predicate Shaped<P>(r: Ring<P>, log: seq<Entry<P>>) {
    var n := |r.entry|;
    && n > 0
    && r.inOffs == Turn(|log|, n)
    && (r.full <==> |log| >= n)
    && r.outOffs == (if r.full then Turn(|log|, n) else 0)
    && r.totalSize == Sum(EntrySizes(log)) % 256
    && Ordered(r) == Window(n, log) + Blanks(n - |Window(n, log)|)
  }

  lemma SumEntrySizesAppend<P>(log: seq<Entry<P>>, e: Entry<P>)
    ensures Sum(EntrySizes(log + [e])) == Sum(EntrySizes(log)) + e.size
  {
    SumAppend(EntrySizes(log), [e.size]);
    assert EntrySizes(log + [e]) == EntrySizes(log) + [e.size];
  }

  /** Adding to a full ring replaces its oldest entry, which is where the next one goes. */
  lemma OrderWhenFull<P>(r: Ring<P>, e: Entry<P>)
    requires r.full && r.inOffs == r.outOffs < |r.entry|
    ensures Added(r, e).outOffs < |r.entry|
    ensures Ordered(Added(r, e)) == Ordered(r)[1..] + [e]
  {
  }

  lemma OrderWhenFilling<P>(r: Ring<P>, e: Entry<P>)
    requires !r.full && r.outOffs == 0 && r.inOffs < |r.entry|
    ensures Added(r, e).outOffs == 0 && Ordered(Added(r, e)) == Ordered(r)[r.inOffs := e]
  {
  }

  lemma AddedOrder<P>(r: Ring<P>, log: seq<Entry<P>>, e: Entry<P>)
    requires Shaped(r, log)
    ensures var r' := Added(r, e); var n := |r.entry|;
      && r'.outOffs < n
      && Ordered(r') == Window(n, log + [e]) + Blanks(n - |Window(n, log + [e])|)
  {
    var n, w := |r.entry|, Window(|r.entry|, log);
    if r.full {
      OrderWhenFull(r, e);
      assert Window(n, log + [e]) == w[1..] + [e];
    } else {
      OrderWhenFilling(r, e);
      assert Window(n, log + [e]) == log + [e];
    }
  }

  /** One add keeps the shape, at every fill level and every rotation; in particular setting
      `inOffs` to `outOffs` at the end of the array is right. */
  lemma AddedShaped<P>(r: Ring<P>, log: seq<Entry<P>>, e: Entry<P>)
    requires Shaped(r, log)
    ensures Shaped(Added(r, e), log + [e])
  {
    AddedOrder(r, log, e);
    SumEntrySizesAppend(log, e);
  }

  lemma {:induction false} AddAllShaped<P>(n: capacity, log: seq<Entry<P>>)
    ensures Shaped(AddAll(n, log), log)
  {
    if log == [] {
      assert EntrySizes<P>([]) == [];
    } else {
      var before, last := log[..|log| - 1], log[|log| - 1];
      assert log == before + [last];
      AddAllShaped(n, before);
      AddedShaped(AddAll(n, before), before, last);
    }
  }

  /** The window refinement over a whole run: whatever is added to a zeroed ring, in whatever
      number, the indices are the number of adds modulo the capacity, and reading round from
      `outOffs` gives exactly the last entries, oldest first. */
  lemma {:induction false} WindowRefinement<P>(n: capacity, log: seq<Entry<P>>)
    ensures var r := AddAll(n, log); var kept := Min(|log|, n);
      && r.inOffs == |log| % n
      && (r.full <==> |log| >= n)
      && r.outOffs == (if r.full then |log| % n else 0)
      && r.totalSize == Sum(EntrySizes(log)) % 256
      && (forall k :: 0 <= k < kept ==> Ordered(r)[k] == log[|log| - kept + k])
  {
    TurnIsMod(|log|, n);
    AddAllShaped(n, log);
    var r, w := AddAll(n, log), Window(n, log);
    assert Ordered(r)[..|w|] == w;
    forall k | 0 <= k < |w|
      ensures Ordered(r)[k] == log[|log| - |w| + k]
    {
      assert Ordered(r)[k] == Ordered(r)[..|w|][k];
    }
  }

  /** The place in a log of `adds` adds of what slot `i` holds: in the current lap of the array
      or, at and beyond the next slot to be written, in the lap before. */
  function LogIndex(n: nat, adds: nat, i: nat): (index: int)
    requires i < Min(n, adds)
    ensures 0 <= index < adds
  {
    if adds < n then i
    else if i < Turn(adds, n) then adds - Turn(adds, n) + i
    else adds - n - Turn(adds, n) + i
  }

  /** What the slots hold in array order: the log itself until the array is full, and the
      last `n` entries rotated once it is. */
  function Physical<T>(n: nat, log: seq<T>): (slots: seq<T>)
    ensures |slots| == Min(n, |log|)
  {
    seq(Min(n, |log|), i requires 0 <= i < Min(n, |log|) => log[LogIndex(n, |log|, i)])
  }

  lemma PhysicalSlots<P>(r: Ring<P>, log: seq<Entry<P>>)
    requires Represents(r, log)
    ensures r.entry == Physical(|r.entry|, log) + Blanks(|r.entry| - |Physical(|r.entry|, log)|)
  {
    var n, o := |r.entry|, r.outOffs;
    AddAllShaped(n, log);
    var slots := Physical(n, log) + Blanks(n - |Physical(n, log)|);
    forall i | 0 <= i < n
      ensures r.entry[i] == slots[i]
    {
      assert r.entry[i] == Ordered(r)[if i >= o then i - o else i + n - o];
    }
  }

  lemma PhysicalSizes<P>(n: nat, log: seq<Entry<P>>)
    requires n > 0
    ensures EntrySizes(Physical(n, log)) == Physical(n, EntrySizes(log))
  {
  }

  /** Slot `i` of the array holds the window's element of the matching rank. */
  lemma PhysicalRank<T>(n: nat, log: seq<T>, outOffs: nat, k: nat)
    requires n > 0 && k < |Window(n, log)|
    requires outOffs == if |log| < n then 0 else Turn(|log|, n)
    ensures var i := SlotOfRank(n, outOffs, k);
      i < |Physical(n, log)| && Physical(n, log)[i] == Window(n, log)[k]
  {
  }

  /** The lookup, told from the log: nothing when the offset is not in the window's data;
      otherwise the slot that holds the window's entry covering the offset, and the byte in it. */
  ghost predicate Finds<P>(r: Ring<P>, log: seq<Entry<P>>, charOffset: nat, found: Option<Place>) {
    var w := Window(|r.entry|, log);
    var at := Locate(EntrySizes(w), charOffset);
    match found
    case None => at == None
    case Some(place) =>
      && at.Some? && at.value.index < |w| && place.index < |r.entry| && r.outOffs < |r.entry|
      && place.index == SlotOfRank(|r.entry|, r.outOffs, at.value.index)
      && r.entry[place.index] == w[at.value.index]
      && place.offset == at.value.offset < w[at.value.index].size
  }

  lemma LookupFinds<P>(r: Ring<P>, log: seq<Entry<P>>, charOffset: nat)
    requires Represents(r, log)
    ensures Finds(r, log, charOffset, Lookup(r, charOffset))
  {
    var n := |r.entry|;
    AddAllShaped(n, log);
    var w := Window(n, log);
    var blanks := Blanks<P>(n - |w|);
    assert EntrySizes(Ordered(r)) == EntrySizes(w) + EntrySizes(blanks);
    LocateBeforeZeros(EntrySizes(w), EntrySizes(blanks), charOffset);
    LocateSound(EntrySizes(w), charOffset);
    match Locate(EntrySizes(w), charOffset)
    case None =>
    case Some(at) =>
      assert Ordered(r)[at.index] == w[at.index];
  }

  /** What the search loop knows at its head: `k` slots in reading order lie behind it, their
      sizes are summed up in `seen`, and the wanted offset is not in them. */
  ghost predicate Searching<P>(r: Ring<P>, charOffset: nat, i: nat, wrapAround: bool, seen: nat, k: nat) {
    && r.outOffs < |r.entry| && i <= |r.entry| && k <= |r.entry|
    && (if wrapAround then i + |r.entry| == r.outOffs + k && i > 0 else i == r.outOffs + k)
    && seen == Sum(EntrySizes(Ordered(r))[..k])
    && seen <= charOffset
  }

  /** The search found its slot, at rank `k`. */
  lemma SearchFinds<P>(r: Ring<P>, charOffset: nat, i: nat, seen: nat, k: nat)
    requires r.outOffs < |r.entry| && k < |r.entry| && i == SlotOfRank(|r.entry|, r.outOffs, k)
    requires seen == Sum(EntrySizes(Ordered(r))[..k])
    requires seen <= charOffset < seen + r.entry[i].size
    ensures Lookup(r, charOffset) == Some(Place(i, charOffset - seen))
  {
    assert Ordered(r)[k] == r.entry[i];
    LocateAt(EntrySizes(Ordered(r)), k, charOffset - seen);
  }

  /** The search moves past the slot at rank `k`. */
  lemma SearchMoves<P>(r: Ring<P>, charOffset: nat, i: nat, seen: nat, k: nat)
    requires r.outOffs < |r.entry| && k < |r.entry| && i == SlotOfRank(|r.entry|, r.outOffs, k)
    requires seen == Sum(EntrySizes(Ordered(r))[..k])
    ensures Sum(EntrySizes(Ordered(r))[..k + 1]) == seen + r.entry[i].size
  {
    assert Ordered(r)[k] == r.entry[i];
    SumNext(EntrySizes(Ordered(r)), k);
  }

  /** One iteration of the search: it has its slot, or goes on with the next one. */
  lemma SearchStep<P>(r: Ring<P>, charOffset: nat, i0: nat, wrap0: bool, seen: nat, k: nat)
    requires Searching(r, charOffset, i0, wrap0, seen, k) && k < |r.entry|
    ensures var i := if i0 == |r.entry| then 0 else i0;
      && i == SlotOfRank(|r.entry|, r.outOffs, k)
      && if charOffset < seen + r.entry[i].size then Lookup(r, charOffset) == Some(Place(i, charOffset - seen))
         else Searching(r, charOffset, i + 1, wrap0 || i0 == |r.entry|, seen + r.entry[i].size, k + 1)
  {
    var i := if i0 == |r.entry| then 0 else i0;
    SearchMoves(r, charOffset, i, seen, k);
    if charOffset < seen + r.entry[i].size { SearchFinds(r, charOffset, i, seen, k); }
  }

  /** The search has come round: nothing is at the wanted offset. */
  lemma SearchFails<P>(r: Ring<P>, charOffset: nat, seen: nat)
    requires r.outOffs < |r.entry|
    requires seen == Sum(EntrySizes(Ordered(r))[..|r.entry|]) && seen <= charOffset
    ensures Lookup(r, charOffset) == None
  {
    LocateSound(EntrySizes(Ordered(r)), charOffset);
    assert EntrySizes(Ordered(r))[..|r.entry|] == EntrySizes(Ordered(r));
  }

  class CircularBuffer<P> {
    const entry: array<Entry<P>>
    var inOffs: uint8
    var outOffs: uint8
    var full: bool
    var totalSize: uint8

    /** Every entry ever added, oldest first. */
    ghost var log: seq<Entry<P>>

    ghost function Value(): Ring<P>
      reads this, entry
    {
      Ring(entry[..], inOffs, outOffs, full, totalSize)
    }

    ghost predicate Valid()
      reads this, entry
    {
      Represents(Value(), log)
    }

    constructor (n: capacity)
      ensures Valid() && fresh(entry) && entry.Length == n
      ensures log == []
    {
      entry := new Entry<P>[n](_ => Entry(None, 0));
      inOffs, outOffs, full, totalSize := 0, 0, false, 0;
      log := [];
      new;
      assert entry[..] == Blanks(n);
    }

    /** aesd_circular_buffer_add_entry */
    method AddEntry(e: Entry<P>)
      requires Valid()
      modifies this, entry
      ensures Valid() && log == old(log) + [e]
    {
      ghost var before := Value();
      assert inOffs < entry.Length && outOffs < entry.Length;
      if full {
        outOffs := outOffs + 1;
        if outOffs == entry.Length {
          outOffs := 0;
        }
      }
      assert Value() == AdvanceOut(before);
      entry[inOffs] := e;
      inOffs := inOffs + 1;
      totalSize := (totalSize + e.size) % 256;
      assert Value() == StoreEntry(AdvanceOut(before), e);
      if inOffs == entry.Length {
        inOffs := outOffs;
        full := true;
      }
      AddedRepresents(before, log, e);
      log := log + [e];
    }

    /** aesd_circular_buffer_find_entry_offset_for_fpos: the slot and the byte in it, or
        nothing when `charOffset` is at or past the end of the data.  The loop's own guard
        never fails; the loop ends because the search comes back to `outOffs`. */
    method FindEntryOffsetForFpos(charOffset: nat) returns (found: Option<Place>)
      requires Valid()
      ensures Finds(Value(), log, charOffset, found)
    {
      ghost var r := Value();
      LookupFinds(r, log, charOffset);
      var totalSizeSeen: nat, offset: nat := 0, 0;
      var wrapAround := false;
      var i: uint8 := outOffs;
      ghost var k: nat := 0;
      assert outOffs < entry.Length;
      while i <= entry.Length
        invariant Searching(r, charOffset, i, wrapAround, totalSizeSeen, k)
        invariant offset == totalSizeSeen
        decreases entry.Length - k
      {
        if i == entry.Length {
          i := 0;
          wrapAround := true;
        }
        if wrapAround && i == outOffs {
          break;
        }
        assert i == SlotOfRank(entry.Length, outOffs, k);
        SearchMoves(r, charOffset, i, offset, k);
        totalSizeSeen := totalSizeSeen + entry[i].size;
        if charOffset < totalSizeSeen {
          SearchFinds(r, charOffset, i, offset, k);
          return Some(Place(i, charOffset - offset));
        }
        offset := offset + entry[i].size;
        i := i + 1;
        k := k + 1;
      }
      SearchFails(r, charOffset, totalSizeSeen);
      return None;
    }
  }
}
