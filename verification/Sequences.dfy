/** Bytes, and the few facts about concatenation, sums and positions that the
    other modules share. */
module Sequences {

  type byte = x: int | 0 <= x < 256
  type bytes = seq<byte>

  const NEWLINE: byte := 10

  /** A line: one newline, at the end. */
  ghost predicate IsLine(line: bytes) {
    |line| > 0 && line[|line| - 1] == NEWLINE && NEWLINE !in line[..|line| - 1]
  }

  datatype Option<+T> = None | Some(value: T)

  /** A position inside a sequence of blocks: which block, and where in it. */
  datatype Place = Place(index: nat, offset: nat)

  ghost predicate Distinct<T>(s: seq<T>) {
    forall i, j :: 0 <= i < j < |s| ==> s[i] != s[j]
  }

  /** Element `i`, or `past` beyond the end. */
  ghost function Nth<T>(s: seq<T>, i: nat, past: T): T {
    if i < |s| then s[i] else past
  }

  function Flat<T>(blocks: seq<seq<T>>): seq<T> {
    if blocks == [] then [] else blocks[0] + Flat(blocks[1..])
  }

  function Sum(sizes: seq<nat>): nat {
    if sizes == [] then 0 else sizes[0] + Sum(sizes[1..])
  }

  function Sizes<T>(blocks: seq<seq<T>>): (sizes: seq<nat>)
    ensures |sizes| == |blocks|
    ensures forall i :: 0 <= i < |blocks| ==> sizes[i] == |blocks[i]|
  {
    seq(|blocks|, i requires 0 <= i < |blocks| => |blocks[i]|)
  }

  function Min(a: nat, b: nat): nat {
    if a < b then a else b
  }

  /** The last `n` elements, or all of them when there are fewer. */
  function Window<T>(n: nat, log: seq<T>): (w: seq<T>)
    ensures |w| == Min(n, |log|)
  {
    seq(Min(n, |log|), k requires 0 <= k < Min(n, |log|) => log[|log| - Min(n, |log|) + k])
  }

  /** What has fallen out of the window: everything before the last `n` elements. */
  function Evicted<T>(n: nat, log: seq<T>): seq<T> {
    log[..|log| - Min(n, |log|)]
  }

  /** The block that holds position `p` of the blocks laid end to end. */
  function Locate(sizes: seq<nat>, p: nat): Option<Place> {
    if sizes == [] then None
    else if p < sizes[0] then Some(Place(0, p))
    else match Locate(sizes[1..], p - sizes[0])
      case None => None
      case Some(at) => Some(Place(at.index + 1, at.offset))
  }

  /** What is left of the block that holds position `p`; nothing past the end. */
  function Rest<T>(blocks: seq<seq<T>>, p: nat): seq<T> {
    if blocks == [] then []
    else if p < |blocks[0]| then blocks[0][p..]
    else Rest(blocks[1..], p - |blocks[0]|)
  }

  lemma {:induction false} FlatAppend<T>(a: seq<seq<T>>, b: seq<seq<T>>)
    ensures Flat(a + b) == Flat(a) + Flat(b)
  {
    if a == [] {
      assert a + b == b;
    } else {
      FlatAppend(a[1..], b);
      assert (a + b)[0] == a[0] && (a + b)[1..] == a[1..] + b;
      assert a[0] + (Flat(a[1..]) + Flat(b)) == (a[0] + Flat(a[1..])) + Flat(b);
    }
  }

  lemma {:induction false} SumAppend(a: seq<nat>, b: seq<nat>)
    ensures Sum(a + b) == Sum(a) + Sum(b)
  {
    if a == [] {
      assert a + b == b;
    } else {
      SumAppend(a[1..], b);
      assert (a + b)[1..] == a[1..] + b;
    }
  }

  lemma {:induction false} SumZeros(zeros: seq<nat>)
    requires forall i :: 0 <= i < |zeros| ==> zeros[i] == 0
    ensures Sum(zeros) == 0
  {
    if zeros != [] { SumZeros(zeros[1..]); }
  }

  lemma SumSplit(sizes: seq<nat>, k: nat)
    requires k <= |sizes|
    ensures Sum(sizes) == Sum(sizes[..k]) + Sum(sizes[k..])
  {
    SumAppend(sizes[..k], sizes[k..]);
    assert sizes == sizes[..k] + sizes[k..];
  }

  lemma SumNext(sizes: seq<nat>, k: nat)
    requires k < |sizes|
    ensures Sum(sizes[..k + 1]) == Sum(sizes[..k]) + sizes[k]
  {
    SumAppend(sizes[..k], [sizes[k]]);
    assert sizes[..k + 1] == sizes[..k] + [sizes[k]];
  }

  lemma SumUpTo(sizes: seq<nat>, j: nat, k: nat)
    requires j <= k <= |sizes|
    ensures Sum(sizes[..j]) <= Sum(sizes[..k])
  {
    SumSplit(sizes[..k], j);
    assert sizes[..k][..j] == sizes[..j];
  }

  /** Rotating the blocks does not change their total size. */
  lemma SumRotate(sizes: seq<nat>, k: nat)
    requires k <= |sizes|
    ensures Sum(sizes[k..] + sizes[..k]) == Sum(sizes)
  {
    SumSplit(sizes, k);
    SumAppend(sizes[k..], sizes[..k]);
  }

  lemma SumPositive(sizes: seq<nat>)
    requires sizes != [] && forall i :: 0 <= i < |sizes| ==> sizes[i] > 0
    ensures Sum(sizes) > 0
  {
  }

  lemma {:induction false} FlatSize<T>(blocks: seq<seq<T>>)
    ensures |Flat(blocks)| == Sum(Sizes(blocks))
  {
    if blocks != [] {
      FlatSize(blocks[1..]);
      assert Sizes(blocks)[1..] == Sizes(blocks[1..]);
    }
  }

  /** `Locate` answers exactly the positions inside the data, and its answer is the one
      block whose range covers the position. */
  lemma {:induction false} LocateSound(sizes: seq<nat>, p: nat)
    ensures Locate(sizes, p).Some? <==> p < Sum(sizes)
    ensures Locate(sizes, p).Some? ==>
      var at := Locate(sizes, p).value;
      at.index < |sizes| && at.offset < sizes[at.index] && p == Sum(sizes[..at.index]) + at.offset
  {
    if sizes == [] {
    } else if p < sizes[0] {
      assert sizes[..0] == [];
    } else {
      LocateSound(sizes[1..], p - sizes[0]);
      match Locate(sizes[1..], p - sizes[0])
      case None =>
      case Some(at) =>
        assert sizes[..at.index + 1][1..] == sizes[1..][..at.index];
    }
  }

  /** The converse: a block and an offset inside it are what `Locate` finds at their sum. */
  lemma {:induction false} LocateAt(sizes: seq<nat>, k: nat, offset: nat)
    requires k < |sizes| && offset < sizes[k]
    ensures Locate(sizes, Sum(sizes[..k]) + offset) == Some(Place(k, offset))
  {
    if k == 0 {
      assert sizes[..0] == [];
    } else {
      LocateAt(sizes[1..], k - 1, offset);
      assert sizes[..k][1..] == sizes[1..][..k - 1];
    }
  }

  lemma {:induction false} RestIsLocated<T>(blocks: seq<seq<T>>, p: nat)
    ensures match Locate(Sizes(blocks), p)
      case None => Rest(blocks, p) == []
      case Some(at) =>
        && at.index < |blocks| && at.offset < |blocks[at.index]|
        && Rest(blocks, p) == blocks[at.index][at.offset..]
  {
    if blocks != [] && p >= |blocks[0]| {
      RestIsLocated(blocks[1..], p - |blocks[0]|);
      assert Sizes(blocks)[1..] == Sizes(blocks[1..]);
    }
  }

  /** What is left of a block is the flat data from the position on, up to some point; it is
      empty only past the end. */
  lemma {:induction false} RestInFlat<T>(blocks: seq<seq<T>>, p: nat)
    ensures Rest(blocks, p) == [] <==> p >= |Flat(blocks)|
    ensures p < |Flat(blocks)| ==> Rest(blocks, p) <= Flat(blocks)[p..]
  {
    if blocks != [] {
      if p < |blocks[0]| {
        assert Flat(blocks)[p..] == blocks[0][p..] + Flat(blocks[1..]);
      } else {
        RestInFlat(blocks[1..], p - |blocks[0]|);
        if p < |Flat(blocks)| { assert Flat(blocks)[p..] == Flat(blocks[1..])[p - |blocks[0]|..]; }
      }
    }
  }

  /** Blocks of size zero at the end are never found. */
  lemma LocateBeforeZeros(sizes: seq<nat>, zeros: seq<nat>, p: nat)
    requires forall i :: 0 <= i < |zeros| ==> zeros[i] == 0
    ensures Locate(sizes + zeros, p) == Locate(sizes, p)
  {
    LocateSound(sizes, p);
    LocateSound(sizes + zeros, p);
    SumAppend(sizes, zeros);
    SumZeros(zeros);
    if p < Sum(sizes) {
      var at := Locate(sizes, p).value;
      assert (sizes + zeros)[..at.index] == sizes[..at.index];
      LocateAt(sizes + zeros, at.index, at.offset);
    }
  }

  lemma WindowSplit<T>(n: nat, log: seq<T>)
    ensures Evicted(n, log) + Window(n, log) == log
  {
  }

  lemma SizesWindow<T>(n: nat, log: seq<seq<T>>)
    ensures Sizes(Window(n, log)) == Window(n, Sizes(log))
    ensures Sizes(Evicted(n, log)) == Evicted(n, Sizes(log))
  {
  }
}
