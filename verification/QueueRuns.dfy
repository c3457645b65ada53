/** Whole runs of tail queue operations on any number of heads (server/queue.h:635-785). */
module QueueRuns {
  import opened Sequences
  import opened TailQueues

  datatype Op =
    | Reset(h: Head)
    | PushFront(h: Head, elm: Entry)
    | PushBack(h: Head, elm: Entry)
    | After(h: Head, listelm: Entry, elm: Entry)
    | Before(h: Head, listelm: Entry, elm: Entry)
    | Unlink(h: Head, elm: Entry)
    | Join(h: Head, h2: Head)
    | Exchange(h: Head, h2: Head)

  type View = map<Head, seq<Entry>>

  ghost function ViewOf(heads: set<Head>): View
    reads heads
  {
    map h | h in heads :: h.elems
  }

  ghost function Members(v: View): (all: set<Entry>)
    ensures forall h, e :: h in v && e in v[h] ==> e in all
  {
    set h, e | h in v && e in v[h] :: e
  }

  /** The entries some operations would bring in. */
  ghost function Incoming(ops: seq<Op>): set<Entry> {
    if ops == [] then {} else Brought(ops[0]) + Incoming(ops[1..])
  }

  ghost function Brought(op: Op): set<Entry> {
    match op
    case PushFront(_, elm) => {elm}
    case PushBack(_, elm) => {elm}
    case After(_, _, elm) => {elm}
    case Before(_, _, elm) => {elm}
    case _ => {}
  }

  function PlaceOf(s: seq<Entry>, e: Entry): (k: nat)
    requires e in s
    ensures k < |s| && s[k] == e
  {
    if s[0] == e then 0 else PlaceOf(s[1..], e) + 1
  }

  /** What the callers of the macros have to see to: the heads exist, an element to insert is in
      no queue, an element to work at is in the named one. */
  ghost predicate Legal(v: View, op: Op) {
    match op
    case Reset(h) => h in v
    case PushFront(h, elm) => h in v && Free(v, elm)
    case PushBack(h, elm) => h in v && Free(v, elm)
    case After(h, listelm, elm) => h in v && listelm in v[h] && Free(v, elm)
    case Before(h, listelm, elm) => h in v && listelm in v[h] && Free(v, elm)
    case Unlink(h, elm) => h in v && elm in v[h]
    case Join(h, h2) => h in v && h2 in v && h != h2
    case Exchange(h, h2) => h in v && h2 in v
  }

  ghost predicate Free(v: View, e: Entry) {
    forall h :: h in v ==> e !in v[h]
  }

  /** The matching operation on sequences. */
  ghost function Effect(v: View, op: Op): View
    requires Legal(v, op)
  {
    match op
    case Reset(h) => v[h := []]
    case PushFront(h, elm) => v[h := [elm] + v[h]]
    case PushBack(h, elm) => v[h := v[h] + [elm]]
    case After(h, listelm, elm) =>
      var k := PlaceOf(v[h], listelm) + 1;
      v[h := v[h][..k] + [elm] + v[h][k..]]
    case Before(h, listelm, elm) =>
      var k := PlaceOf(v[h], listelm);
      v[h := v[h][..k] + [elm] + v[h][k..]]
    case Unlink(h, elm) =>
      var k := PlaceOf(v[h], elm);
      v[h := v[h][..k] + v[h][k + 1..]]
    case Join(h, h2) => v[h := v[h] + v[h2]][h2 := []]
    case Exchange(h, h2) => v[h := v[h2]][h2 := v[h]]
  }

  ghost predicate Names(op: Op, h: Head) {
    h == op.h || ((op.Join? || op.Exchange?) && h == op.h2)
  }

  /** What the operation has done to the queues it names, `k` being where in the queue. */
  ghost predicate Done(v: View, op: Op, v': View, k: nat)
    requires Legal(v, op) && v'.Keys == v.Keys
  {
    var s, s' := v[op.h], v'[op.h];
    match op
    case Reset(_) => |s'| == 0
    case PushFront(_, elm) => |s'| == |s| + 1 && s'[0] == elm && s'[1..] == s
    case PushBack(_, elm) => |s'| == |s| + 1 && s'[|s|] == elm && s'[..|s|] == s
    case After(_, listelm, elm) =>
      k + 1 < |s'| && s'[k] == listelm && s'[k + 1] == elm && s == s'[..k + 1] + s'[k + 2..]
    case Before(_, listelm, elm) =>
      k + 1 < |s'| && s'[k] == elm && s'[k + 1] == listelm && s == s'[..k] + s'[k + 1..]
    case Unlink(_, elm) =>
      k <= |s'| && s == s'[..k] + [elm] + s'[k..] && (Distinct(s) ==> elm !in s')
    case Join(_, h2) =>
      && |s'| == |s| + |v[h2]| && |v'[h2]| == 0
      && (forall i :: 0 <= i < |s| ==> s'[i] == s[i])
      && (forall i :: 0 <= i < |v[h2]| ==> s'[|s| + i] == v[h2][i])
    case Exchange(_, h2) => s' == v[h2] && v'[h2] == s
  }

  /** Where each operation puts its element and what becomes of the others, told from the resulting
      queues; queues it does not name stay as they are. */
  lemma {:induction false} EffectIs(v: View, op: Op) returns (k: nat)
    requires Legal(v, op)
    ensures Effect(v, op).Keys == v.Keys && Done(v, op, Effect(v, op), k)
    ensures forall h :: h in v && !Names(op, h) ==> Effect(v, op)[h] == v[h]
  {
    var s, s' := v[op.h], Effect(v, op)[op.h];
    k := if op.After? || op.Before? then PlaceOf(s, op.listelm) else if op.Unlink? then PlaceOf(s, op.elm) else 0;
    if op.After? {
      assert s == s[..k + 1] + s[k + 1..] && s'[..k + 1] == s[..k + 1] && s'[k + 2..] == s[k + 1..];
    } else if op.Before? {
      assert s == s[..k] + s[k..] && s'[..k] == s[..k] && s'[k + 1..] == s[k..];
    } else if op.Unlink? {
      assert s == s[..k] + [s[k]] + s[k + 1..] && s'[..k] == s[..k] && s'[k..] == s[k + 1..];
    }
  }

  /** All queues are well linked. */
  ghost predicate AllLinked(heads: set<Head>)
    reads heads, Members(ViewOf(heads))
  {
    forall h :: h in heads ==> h in ViewOf(heads) && h.Valid()
  }

  /** No two queues share an element. */
  ghost predicate Separate(v: View) {
    forall g, h :: g in v && h in v && g != h ==> Apart(v[g], v[h])
  }

  ghost predicate AllValid(heads: set<Head>)
    reads heads, Members(ViewOf(heads))
  {
    AllLinked(heads) && Separate(ViewOf(heads))
  }

  lemma UpdateSeparate(v: View, h: Head, s: seq<Entry>, more: set<Entry>)
    requires Separate(v) && h in v
    requires forall e :: e in more ==> Free(v, e)
    requires forall e :: e in s ==> e in v[h] || e in more
    ensures Separate(v[h := s])
    ensures Members(v[h := s]) <= Members(v) + more
  {
  }

  /** The sequence operations never make two queues share an element, and bring in no element
      but their own. */
  lemma {:induction false} EffectSeparate(v: View, op: Op)
    requires Separate(v) && Legal(v, op)
    ensures Separate(Effect(v, op))
    ensures Members(Effect(v, op)) <= Members(v) + Brought(op)
  {
    match op
    case Join(h, h2) =>
    case Exchange(h, h2) =>
    case _ => UpdateSeparate(v, op.h, Effect(v, op)[op.h], Brought(op));
  }

  /** The queues are well linked and their elements are those of `v`. */
  ghost predicate AsSequences(heads: set<Head>, v: View)
    reads heads, Members(ViewOf(heads))
  {
    v.Keys == heads && forall g :: g in heads ==> g in ViewOf(heads) && g.Valid() && g.elems == v[g]
  }

  /** None of the queues has an element in `moved`. */
  ghost predicate Elsewhere(heads: set<Head>, moved: seq<Entry>)
    reads heads
  {
    forall g, i :: g in heads && 0 <= i < |g.elems| ==> g.elems[i] !in moved
  }

  /** The queues other than `h` and `h2` have no element of these, nor one that is free. */
  lemma OthersElsewhere(heads: set<Head>, h: Head, h2: Head, more: seq<Entry>)
    requires Separate(ViewOf(heads)) && h in heads && h2 in heads
    requires forall e :: e in more ==> Free(ViewOf(heads), e)
    ensures Elsewhere(heads - {h, h2}, h.elems + h2.elems + more)
    ensures h != h2 ==> Apart(h.elems, h2.elems)
    ensures forall e :: e in more ==> e !in h.elems && e !in h2.elems
  {
    var v := ViewOf(heads);
    assert h in v && h2 in v;
    forall g, i | g in heads - {h, h2} && 0 <= i < |g.elems|
      ensures g.elems[i] !in h.elems + h2.elems + more
    {
      assert g in v && g.elems[i] in v[g];
    }
  }

  twostate predicate Undisturbed(heads: set<Head>)
    reads heads, Members(ViewOf(heads))
  {
    forall g :: g in heads ==> g in ViewOf(heads) && g.Valid() && g.elems == old(g.elems)
  }

  /** Queues whose head and elements keep their fields stay as they are. */
  twostate lemma Untouched(heads: set<Head>)
    requires forall g :: g in heads ==> old(g.Valid()) && unchanged(g)
    requires forall g, i :: g in heads && 0 <= i < |g.elems| ==> unchanged(g.elems[i])
    ensures Undisturbed(heads)
  {
    forall g | g in heads
      ensures g in ViewOf(heads) && g.Valid()
    {
      forall i | 0 <= i < |g.elems|
        ensures Linked(g, g.elems, i)
      {
        assert old(Linked(g, g.elems, i));
      }
    }
  }

  /** The queues worked at and the others undisturbed are all queues. */
  lemma Together(heads: set<Head>, changed: set<Head>, v: View)
    requires v.Keys == heads
    requires forall g :: g in changed ==> g in heads && g.Valid() && g.elems == v[g]
    requires forall g :: g in heads - changed ==> g.Valid() && g.elems == v[g]
    ensures AsSequences(heads, v)
  {
    forall g | g in heads
      ensures g in ViewOf(heads) && g.Valid() && g.elems == v[g]
    {
      assert g in heads - changed || g in changed;
    }
  }

  // Each operation touches the heads and entries it must and leaves the other queues alone.

  method DoReset(heads: set<Head>, h: Head)
    requires AllValid(heads) && Legal(ViewOf(heads), Reset(h))
    modifies h, h.elems
    ensures AsSequences(heads, Effect(old(ViewOf(heads)), Reset(h)))
  {
    ghost var v := Effect(ViewOf(heads), Reset(h));
    OthersElsewhere(heads, h, h, []);
    Init(h);
    Untouched(heads - {h});
    Together(heads, {h}, v);
  }

  method DoPushFront(heads: set<Head>, h: Head, elm: Entry)
    requires AllValid(heads) && Legal(ViewOf(heads), PushFront(h, elm))
    modifies h, h.elems, elm
    ensures AsSequences(heads, Effect(old(ViewOf(heads)), PushFront(h, elm)))
  {
    ghost var v := Effect(ViewOf(heads), PushFront(h, elm));
    OthersElsewhere(heads, h, h, [elm]);
    InsertHead(h, elm);
    Untouched(heads - {h});
    Together(heads, {h}, v);
  }

  method DoPushBack(heads: set<Head>, h: Head, elm: Entry)
    requires AllValid(heads) && Legal(ViewOf(heads), PushBack(h, elm))
    modifies h, h.elems, elm
    ensures AsSequences(heads, Effect(old(ViewOf(heads)), PushBack(h, elm)))
  {
    ghost var v := Effect(ViewOf(heads), PushBack(h, elm));
    OthersElsewhere(heads, h, h, [elm]);
    InsertTail(h, elm);
    Untouched(heads - {h});
    Together(heads, {h}, v);
  }

  method DoAfter(heads: set<Head>, h: Head, listelm: Entry, elm: Entry)
    requires AllValid(heads) && Legal(ViewOf(heads), After(h, listelm, elm))
    modifies h, h.elems, elm
    ensures AsSequences(heads, Effect(old(ViewOf(heads)), After(h, listelm, elm)))
  {
    ghost var v := Effect(ViewOf(heads), After(h, listelm, elm));
    OthersElsewhere(heads, h, h, [elm]);
    InsertAfter(h, listelm, elm, PlaceOf(h.elems, listelm));
    Untouched(heads - {h});
    Together(heads, {h}, v);
  }

  method DoBefore(heads: set<Head>, h: Head, listelm: Entry, elm: Entry)
    requires AllValid(heads) && Legal(ViewOf(heads), Before(h, listelm, elm))
    modifies h, h.elems, elm
    ensures AsSequences(heads, Effect(old(ViewOf(heads)), Before(h, listelm, elm)))
  {
    ghost var v := Effect(ViewOf(heads), Before(h, listelm, elm));
    OthersElsewhere(heads, h, h, [elm]);
    InsertBefore(h, listelm, elm, PlaceOf(h.elems, listelm));
    Untouched(heads - {h});
    Together(heads, {h}, v);
  }

  method DoUnlink(heads: set<Head>, h: Head, elm: Entry)
    requires AllValid(heads) && Legal(ViewOf(heads), Unlink(h, elm))
    modifies h, h.elems
    ensures AsSequences(heads, Effect(old(ViewOf(heads)), Unlink(h, elm)))
  {
    ghost var v := Effect(ViewOf(heads), Unlink(h, elm));
    OthersElsewhere(heads, h, h, []);
    Remove(h, elm, PlaceOf(h.elems, elm));
    Untouched(heads - {h});
    Together(heads, {h}, v);
  }

  method DoJoin(heads: set<Head>, h: Head, h2: Head)
    requires AllValid(heads) && Legal(ViewOf(heads), Join(h, h2))
    modifies h, h.elems, h2, h2.elems
    ensures AsSequences(heads, Effect(old(ViewOf(heads)), Join(h, h2)))
  {
    ghost var v := Effect(ViewOf(heads), Join(h, h2));
    OthersElsewhere(heads, h, h2, []);
    Concat(h, h2);
    Untouched(heads - {h, h2});
    Together(heads, {h, h2}, v);
  }

  method DoExchange(heads: set<Head>, h: Head, h2: Head)
    requires AllValid(heads) && Legal(ViewOf(heads), Exchange(h, h2)) && h != h2
    modifies h, h.elems, h2, h2.elems
    ensures AsSequences(heads, Effect(old(ViewOf(heads)), Exchange(h, h2)))
  {
    ghost var v := Effect(ViewOf(heads), Exchange(h, h2));
    OthersElsewhere(heads, h, h2, []);
    Swap(h, h2);
    Untouched(heads - {h, h2});
    Together(heads, {h, h2}, v);
  }

  method DoSelfExchange(heads: set<Head>, h: Head)
    requires AllValid(heads) && Legal(ViewOf(heads), Exchange(h, h))
    modifies h, h.elems
    ensures AsSequences(heads, Effect(old(ViewOf(heads)), Exchange(h, h)))
  {
    ghost var v := Effect(ViewOf(heads), Exchange(h, h));
    OthersElsewhere(heads, h, h, []);
    Swap(h, h);
    Untouched(heads - {h});
    Together(heads, {h}, v);
  }

  lemma ViewIs(heads: set<Head>, v: View)
    requires AsSequences(heads, v)
    ensures ViewOf(heads) == v && AllLinked(heads)
  {
  }

  /** One operation: the links stay well formed in every queue, no two queues come to share an
      element, and all queues together change as the sequences do. */
  method Execute(heads: set<Head>, op: Op)
    requires AllValid(heads) && Legal(ViewOf(heads), op)
    modifies heads, Members(ViewOf(heads)), Brought(op)
    ensures AllValid(heads) && ViewOf(heads) == Effect(old(ViewOf(heads)), op)
  {
    EffectSeparate(ViewOf(heads), op);
    assert op.h in ViewOf(heads) && ((op.Join? || op.Exchange?) ==> op.h2 in ViewOf(heads));
    match op {
      case Reset(h) => DoReset(heads, h);
      case PushFront(h, elm) => DoPushFront(heads, h, elm);
      case PushBack(h, elm) => DoPushBack(heads, h, elm);
      case After(h, listelm, elm) => DoAfter(heads, h, listelm, elm);
      case Before(h, listelm, elm) => DoBefore(heads, h, listelm, elm);
      case Unlink(h, elm) => DoUnlink(heads, h, elm);
      case Join(h, h2) => DoJoin(heads, h, h2);
      case Exchange(h, h2) =>
        if h == h2 {
          DoSelfExchange(heads, h);
        } else {
          DoExchange(heads, h, h2);
        }
    }
    ViewIs(heads, Effect(old(ViewOf(heads)), op));
  }

  /** Every operation of the run is legal when its turn comes, judged on the sequences. */
  ghost predicate LegalRun(v: View, ops: seq<Op>) {
    ops == [] || (Legal(v, ops[0]) && LegalRun(Effect(v, ops[0]), ops[1..]))
  }

  ghost function RunEffect(v: View, ops: seq<Op>): View
    requires LegalRun(v, ops)
  {
    if ops == [] then v else RunEffect(Effect(v, ops[0]), ops[1..])
  }

  /** Tail queues refine sequences: any run of operations on any number of queues keeps every
      link right and acts on all queues as the sequence operations do. */
  method RunAll(heads: set<Head>, ops: seq<Op>)
    requires AllValid(heads) && LegalRun(ViewOf(heads), ops)
    modifies heads, Members(ViewOf(heads)), Incoming(ops)
    ensures AllValid(heads) && ViewOf(heads) == RunEffect(old(ViewOf(heads)), ops)
    decreases |ops|
  {
    if ops != [] {
      EffectSeparate(ViewOf(heads), ops[0]);
      Execute(heads, ops[0]);
      RunAll(heads, ops[1..]);
    }
  }

  lemma {:induction false} PlaceOfFirst(s: seq<Entry>, k: nat)
    requires k < |s| && s[k] !in s[..k]
    ensures PlaceOf(s, s[k]) == k
  {
    if k > 0 {
      assert s[0] in s[..k];
      assert s[1..][..k - 1] == s[1..k];
      forall e | e in s[1..k]
        ensures e in s[..k]
      {
        var i :| 0 <= i < |s[1..k]| && s[1..k][i] == e;
        assert s[..k][i + 1] == e;
      }
      PlaceOfFirst(s[1..], k - 1);
    }
  }

  predicate Inserts(op: Op) {
    op.PushFront? || op.PushBack? || op.After? || op.Before?
  }

  lemma SpliceOut(s: seq<Entry>, k: nat, e: Entry)
    requires k <= |s| && e !in s
    ensures var t := s[..k] + [e] + s[k..];
      PlaceOf(t, e) == k && t[..k] + t[k + 1..] == s
  {
    var t := s[..k] + [e] + s[k..];
    assert t[..k] == s[..k];
    assert forall d :: d in s[..k] ==> d in s;
    PlaceOfFirst(t, k);
  }

  lemma InsertSplices(v: View, op: Op, k: nat)
    requires Inserts(op) && Legal(v, op)
    requires k ==
      if op.PushFront? then 0
      else if op.PushBack? then |v[op.h]|
      else if op.After? then PlaceOf(v[op.h], op.listelm) + 1
      else PlaceOf(v[op.h], op.listelm)
    ensures k <= |v[op.h]| && Effect(v, op) == v[op.h := v[op.h][..k] + [op.elm] + v[op.h][k..]]
  {
    var s := v[op.h];
    assert Effect(v, op)[op.h] == s[..k] + [op.elm] + s[k..];
  }

  /** Removing what was just inserted, by whichever of the four insertions, undoes it. */
  lemma UnlinkUndoesInsert(v: View, op: Op)
    requires Inserts(op) && Legal(v, op)
    ensures Legal(Effect(v, op), Unlink(op.h, op.elm))
    ensures Effect(Effect(v, op), Unlink(op.h, op.elm)) == v
  {
    var s := v[op.h];
    var k :=
      if op.PushFront? then 0
      else if op.PushBack? then |s|
      else if op.After? then PlaceOf(s, op.listelm) + 1
      else PlaceOf(s, op.listelm);
    InsertSplices(v, op, k);
    SpliceOut(s, k, op.elm);
  }
}
