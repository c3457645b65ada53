/** The tail queue of server/queue.h (TAILQ): a forward list whose elements also keep the
    ADDRESS of the link that points to them, and whose head keeps the address of the last link.

    `Link` is such an address: the first-element field of a head, or the next field of an entry.
    Both structs have the same layout, two pointers, which is what TAILQ_LAST and TAILQ_PREV rely
    on when they read an entry through a head pointer. */
module TailQueues {
  import opened Sequences

  /** `Wild` is what a field holds before anything was stored in it. */
  datatype Link = Wild | HeadFirst(head: Head) | NextOf(entry: Entry)

  class Entry {
    var next: Entry?   // tqe_next
    var prev: Link     // tqe_prev

    constructor ()
    {
      next, prev := null, Wild;
    }
  }

  class Head {
    var first: Entry?  // tqh_first
    var last: Link     // tqh_last

    /** The elements, first to last. */
    ghost var elems: seq<Entry>

    /** TAILQ_INIT of a new head */
    constructor ()
      ensures Valid() && elems == []
    {
      first := null;
      last := HeadFirst(this);
      elems := [];
    }

    ghost predicate Valid()
      reads this, elems
    {
      && Distinct(elems)
      && first == Nth<Entry?>(elems, 0, null)
      && last == LinkTo(this, elems, |elems|)
      && (forall i :: 0 <= i < |elems| ==> Linked(this, elems, i))
    }
  }

  /** The link that points to element `i`; past the end, the link that holds null. */
  ghost function LinkTo(h: Head, s: seq<Entry>, i: nat): Link
    requires i <= |s|
  {
    if i == 0 then HeadFirst(h) else NextOf(s[i - 1])
  }

  /** No element in common. */
  ghost predicate Apart(s: seq<Entry>, t: seq<Entry>) {
    forall e :: e in s ==> e !in t
  }

  ghost predicate Linked(h: Head, s: seq<Entry>, i: nat)
    requires i < |s|
    reads s[i]
  {
    s[i].next == Nth<Entry?>(s, i + 1, null) && s[i].prev == LinkTo(h, s, i)
  }

  // Reading and writing through an address.

  function Deref(l: Link): Entry?
    requires !l.Wild?
    reads if l.HeadFirst? then {l.head} else {}, if l.NextOf? then {l.entry} else {}
  {
    match l
    case HeadFirst(h) => h.first
    case NextOf(e) => e.next
  }

  /** The struct at this address read as a head: its second field, `tqh_last`. */
  function LastThrough(l: Link): Link
    requires !l.Wild?
    reads if l.HeadFirst? then {l.head} else {}, if l.NextOf? then {l.entry} else {}
  {
    match l
    case HeadFirst(h) => h.last
    case NextOf(e) => e.prev
  }

  method Store(l: Link, e: Entry?)
    requires !l.Wild?
    modifies if l.HeadFirst? then {l.head} else {}, if l.NextOf? then {l.entry} else {}
    ensures l.HeadFirst? ==> l.head.first == e && l.head.last == old(l.head.last) && l.head.elems == old(l.head.elems)
    ensures l.NextOf? ==> l.entry.next == e && l.entry.prev == old(l.entry.prev)
  {
    match l {
      case HeadFirst(h) => h.first := e;
      case NextOf(entry) => entry.next := e;
    }
  }

  /** TAILQ_INIT */
  method Init(h: Head)
    modifies h
    ensures h.Valid() && h.elems == []
  {
    h.first := null;
    h.last := HeadFirst(h);
    h.elems := [];
  }

  /** TAILQ_INSERT_HEAD */
  method InsertHead(h: Head, elm: Entry)
    requires h.Valid() && elm !in h.elems
    modifies h, h.elems, elm
    ensures h.Valid() && h.elems == [elm] + old(h.elems)
  {
    elm.next := h.first;
    if elm.next != null {
      h.first.prev := NextOf(elm);
    } else {
      h.last := NextOf(elm);
    }
    h.first := elm;
    elm.prev := HeadFirst(h);
    h.elems := [elm] + h.elems;
    forall i | 0 <= i < |h.elems|
      ensures Linked(h, h.elems, i)
    {
      if i > 0 { assert old(Linked(h, h.elems, i - 1)); }
    }
  }

  /** TAILQ_INSERT_TAIL */
  method InsertTail(h: Head, elm: Entry)
    requires h.Valid() && elm !in h.elems
    modifies h, h.elems, elm
    ensures h.Valid() && h.elems == old(h.elems) + [elm]
  {
    elm.next := null;
    elm.prev := h.last;
    Store(h.last, elm);
    h.last := NextOf(elm);
    h.elems := h.elems + [elm];
    forall i | 0 <= i < |h.elems|
      ensures Linked(h, h.elems, i)
    {
      if i < |old(h.elems)| { assert old(Linked(h, h.elems, i)); }
    }
  }

  /** TAILQ_INSERT_AFTER; `k` is the place of `listelm`. */
  method InsertAfter(h: Head, listelm: Entry, elm: Entry, ghost k: nat)
    requires h.Valid() && elm !in h.elems
    requires k < |h.elems| && h.elems[k] == listelm
    modifies h, h.elems, elm
    ensures h.Valid() && h.elems == old(h.elems)[..k + 1] + [elm] + old(h.elems)[k + 1..]
  {
    ghost var s := h.elems;
    assert Linked(h, s, k);
    if k + 1 < |s| { assert Linked(h, s, k + 1); }
    elm.next := listelm.next;
    if elm.next != null {
      elm.next.prev := NextOf(elm);
    } else {
      h.last := NextOf(elm);
    }
    listelm.next := elm;
    elm.prev := NextOf(listelm);
    h.elems := s[..k + 1] + [elm] + s[k + 1..];
    forall i | 0 <= i < |h.elems|
      ensures Linked(h, h.elems, i)
    {
      if i != k + 1 { assert old(Linked(h, s, if i <= k then i else i - 1)); }
    }
  }

  /** TAILQ_INSERT_BEFORE, which is not told the head: whichever link points to `listelm` now
      points to `elm`. */
  method InsertBefore(ghost h: Head, listelm: Entry, elm: Entry, ghost k: nat)
    requires h.Valid() && elm !in h.elems
    requires k < |h.elems| && h.elems[k] == listelm
    modifies h, h.elems, elm
    ensures h.Valid() && h.elems == old(h.elems)[..k] + [elm] + old(h.elems)[k..]
  {
    ghost var s := h.elems;
    assert Linked(h, s, k);
    if k > 0 { assert Linked(h, s, k - 1); }
    elm.prev := listelm.prev;
    elm.next := listelm;
    Store(listelm.prev, elm);
    listelm.prev := NextOf(elm);
    h.elems := s[..k] + [elm] + s[k..];
    forall i | 0 <= i < |h.elems|
      ensures Linked(h, h.elems, i)
    {
      if i != k { assert old(Linked(h, s, if i < k then i else i - 1)); }
    }
  }

  /** TAILQ_REMOVE */
  method Remove(h: Head, elm: Entry, ghost k: nat)
    requires h.Valid() && k < |h.elems| && h.elems[k] == elm
    modifies h, h.elems
    ensures h.Valid() && h.elems == old(h.elems)[..k] + old(h.elems)[k + 1..]
  {
    ghost var s := h.elems;
    assert Linked(h, s, k);
    if k > 0 { assert Linked(h, s, k - 1); }
    if k + 1 < |s| { assert Linked(h, s, k + 1); }
    if elm.next != null {
      elm.next.prev := elm.prev;
    } else {
      h.last := elm.prev;
    }
    Store(elm.prev, elm.next);
    h.elems := s[..k] + s[k + 1..];
    forall i | 0 <= i < |h.elems|
      ensures Linked(h, h.elems, i)
    {
      assert old(Linked(h, s, if i < k then i else i + 1));
    }
  }

  /** TAILQ_CONCAT */
  method Concat(h1: Head, h2: Head)
    requires h1 != h2 && h1.Valid() && h2.Valid()
    requires Apart(h1.elems, h2.elems)
    modifies h1, h2, h1.elems, h2.elems
    ensures h1.Valid() && h1.elems == old(h1.elems) + old(h2.elems)
    ensures h2.Valid() && h2.elems == []
  {
    ghost var s, t := h1.elems, h2.elems;
    assert forall i, j :: 0 <= i < |s| && 0 <= j < |t| ==> s[i] != t[j] by {
      assert forall i :: 0 <= i < |s| ==> s[i] in s;
    }
    if h2.first != null {
      if s != [] { assert Linked(h1, s, |s| - 1); }
      assert Linked(h2, t, 0);
      Store(h1.last, h2.first);
      h2.first.prev := h1.last;
      h1.last := h2.last;
      h1.elems := h1.elems + h2.elems;
      Init(h2);
      forall i | 0 <= i < |s + t|
        ensures Linked(h1, s + t, i)
      {
        if i < |s| { assert old(Linked(h1, s, i)); } else { assert old(Linked(h2, t, i - |s|)); }
      }
    }
  }

  /** TAILQ_SWAP */
  method Swap(h1: Head, h2: Head)
    requires h1.Valid() && h2.Valid()
    requires h1 != h2 ==> Apart(h1.elems, h2.elems)
    modifies h1, h2, h1.elems, h2.elems
    ensures h1.Valid() && h1.elems == old(h2.elems)
    ensures h2.Valid() && h2.elems == old(h1.elems)
  {
    ghost var s, t := h1.elems, h2.elems;
    if s != [] { assert Linked(h1, s, 0); }
    if t != [] { assert Linked(h2, t, 0); }
    var swapFirst, swapLast := h1.first, h1.last;
    h1.first := h2.first;
    h1.last := h2.last;
    h2.first := swapFirst;
    h2.last := swapLast;
    h1.elems, h2.elems := h2.elems, h1.elems;
    swapFirst := h1.first;
    if swapFirst != null {
      swapFirst.prev := HeadFirst(h1);
    } else {
      h1.last := HeadFirst(h1);
    }
    swapFirst := h2.first;
    if swapFirst != null {
      swapFirst.prev := HeadFirst(h2);
    } else {
      h2.last := HeadFirst(h2);
    }
    forall i | 0 <= i < |t|
      ensures Linked(h1, t, i)
    {
      assert old(Linked(h2, t, i));
    }
    forall i | 0 <= i < |s|
      ensures Linked(h2, s, i)
    {
      assert old(Linked(h1, s, i));
    }
  }

  /** TAILQ_LAST: the second field of whatever struct the last link lies in, followed. */
  method Last(h: Head) returns (e: Entry?)
    requires h.Valid()
    ensures e == if h.elems == [] then null else h.elems[|h.elems| - 1]
  {
    if h.elems != [] {
      assert Linked(h, h.elems, |h.elems| - 1);
      if |h.elems| > 1 { assert Linked(h, h.elems, |h.elems| - 2); }
    }
    e := Deref(LastThrough(h.last));
  }

  /** TAILQ_PREV */
  method Prev(ghost h: Head, elm: Entry, ghost k: nat) returns (e: Entry?)
    requires h.Valid() && k < |h.elems| && h.elems[k] == elm
    ensures e == if k == 0 then null else h.elems[k - 1]
  {
    assert Linked(h, h.elems, k);
    if k > 0 { assert Linked(h, h.elems, k - 1); }
    if k > 1 { assert Linked(h, h.elems, k - 2); }
    assert Linked(h, h.elems, |h.elems| - 1);
    e := Deref(LastThrough(elm.prev));
  }

  ghost function Reverse<T>(s: seq<T>): (r: seq<T>)
    ensures |r| == |s|
    ensures forall i :: 0 <= i < |s| ==> r[i] == s[|s| - 1 - i]
  {
    seq(|s|, i requires 0 <= i < |s| => s[|s| - 1 - i])
  }

  /** TAILQ_FOREACH_REVERSE visits the elements last to first, and stops. */
  method ForeachReverse(h: Head) returns (visited: seq<Entry>)
    requires h.Valid()
    ensures visited == Reverse(h.elems)
  {
    visited := [];
    var e := Last(h);
    ghost var k: nat := |h.elems|;
    while e != null
      invariant k <= |h.elems|
      invariant e == if k == 0 then null else h.elems[k - 1]
      invariant |visited| == |h.elems| - k
      invariant forall i :: 0 <= i < |visited| ==> visited[i] == h.elems[|h.elems| - 1 - i]
      decreases k
    {
      visited := visited + [e];
      k := k - 1;
      e := Prev(h, e, k);
    }
  }

  /** TAILQ_FOREACH visits them first to last. */
  method Foreach(h: Head) returns (visited: seq<Entry>)
    requires h.Valid()
    ensures visited == h.elems
  {
    visited := [];
    var e := h.first;
    while e != null
      invariant |visited| <= |h.elems| && visited == h.elems[..|visited|]
      invariant e == Nth<Entry?>(h.elems, |visited|, null)
      decreases |h.elems| - |visited|
    {
      assert Linked(h, h.elems, |visited|);
      visited := visited + [e];
      e := e.next;
    }
  }
}
