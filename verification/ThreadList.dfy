/** The server's list of connections (server/aesdsocket.c:344-375) on the singly linked list of
    server/queue.h: every accepted connection is linked in, its thread sets a flag when it is
    done, and after each accept a sweep unlinks and frees the nodes whose flag it finds set. */
module ThreadLists {
  import opened Sequences

  /** slist_data_s */
  class Conn {
    const acceptedfd: int
    var threadComplete: bool
    var next: Conn?

    constructor (fd: int)
      ensures acceptedfd == fd && !threadComplete && next == null
    {
      acceptedfd, threadComplete, next := fd, false, null;
    }
  }

  /** The elements of `s` whose flag is `want`, in order. */
  function Pick<T>(s: seq<T>, flags: seq<bool>, want: bool): seq<T>
    requires |s| == |flags|
  {
    if s == [] then []
    else
      var n := |s| - 1;
      Pick(s[..n], flags[..n], want) + if flags[n] == want then [s[n]] else []
  }

  lemma PickNext<T>(s: seq<T>, flags: seq<bool>, flag: bool, want: bool)
    requires |flags| < |s|
    ensures var n := |flags|;
      Pick(s[..n + 1], flags + [flag], want) == Pick(s[..n], flags, want) + if flag == want then [s[n]] else []
  {
    var n := |flags|;
    assert s[..n + 1][..n] == s[..n] && (flags + [flag])[..n] == flags;
  }

  /** What is picked are exactly the elements with that flag, in their order. */
  lemma {:induction false} PickIndices<T>(s: seq<T>, flags: seq<bool>, want: bool) returns (at: seq<nat>)
    requires |s| == |flags|
    ensures |at| == |Pick(s, flags, want)|
    ensures forall k :: 0 <= k < |at| ==> at[k] < |s| && flags[at[k]] == want && Pick(s, flags, want)[k] == s[at[k]]
    ensures forall j, k :: 0 <= j < k < |at| ==> at[j] < at[k]
    ensures forall i :: 0 <= i < |s| && flags[i] == want ==> i in at
  {
    at := [];
    if s != [] {
      var n := |s| - 1;
      at := PickIndices(s[..n], flags[..n], want);
      if flags[n] == want { at := at + [n]; }
    }
  }

  lemma PickHas<T>(s: seq<T>, flags: seq<bool>, want: bool, i: nat)
    requires |s| == |flags| && i < |s| && flags[i] == want
    ensures s[i] in Pick(s, flags, want)
  {
    var at := PickIndices(s, flags, want);
    assert i in at;
  }

  /** One accepted connection: which threads finish before the sweep, and which during it. */
  datatype Round = Round(fd: int, before: set<nat>, during: seq<set<nat>>)

  ghost predicate Linked(s: seq<Conn>, i: nat)
    requires i < |s|
    reads s[i]
  {
    s[i].next == Nth<Conn?>(s, i + 1, null)
  }

  /** Thread `t` is named among those that finish during a sweep. */
  ghost predicate Named(during: seq<set<nat>>, t: nat) {
    exists k :: 0 <= k < |during| && t in during[k]
  }

  /** Thread `t` finishes in one of the first `upto` rounds. */
  ghost predicate Mentioned(rounds: seq<Round>, upto: nat, t: nat)
    requires upto <= |rounds|
  {
    exists j :: 0 <= j < upto && (t in rounds[j].before || Named(rounds[j].during, t))
  }

  /** Where the connections stand: accepted ones are in the list or reaped, never both. */
  ghost predicate Accounted(threads: seq<Conn>, list: seq<Conn>, reaped: seq<Conn>) {
    && Distinct(threads) && Distinct(list) && Distinct(reaped)
    && (forall c :: c in threads ==> c in list || c in reaped)
    && (forall c :: c in list ==> c in threads)
    && (forall c :: c in reaped ==> c in threads)
    && (forall c :: c in list ==> c !in reaped)
  }

  lemma ReapAccounted(threads: seq<Conn>, list: seq<Conn>, reaped: seq<Conn>, k: nat)
    requires Accounted(threads, list, reaped) && k < |list|
    ensures Accounted(threads, list[..k] + list[k + 1..], reaped + [list[k]])
  {
    var c := list[k];
    assert c in list;
    forall d | d in list[..k] + list[k + 1..]
      ensures d in list && d != c
    {
    }
  }

  lemma NextAfter(all: seq<Conn>, kept: seq<Conn>, i: nat)
    requires i < |all|
    ensures var list := kept + all[i..];
      list[|kept|] == all[i] && Nth<Conn?>(list, |kept| + 1, null) == Nth<Conn?>(all, i + 1, null)
  {
  }

  /** Those found among `all`, or reaped before, are all reaped. */
  lemma AllReaped(all: seq<Conn>, found: seq<bool>, was: set<Conn>, before: seq<Conn>)
    requires |found| == |all|
    requires forall i :: 0 <= i < |found| ==> (all[i] in was ==> found[i])
    requires forall c :: c in was ==> c in all || c in before
    ensures forall c :: c in was ==> c in before + Pick(all, found, true)
  {
    forall c | c in was
      ensures c in before + Pick(all, found, true)
    {
      if c in all {
        var i :| 0 <= i < |all| && all[i] == c;
        PickHas(all, found, true, i);
      }
    }
  }

  /** What round `j` has come to when `reaped` are the connections reaped after it: those done at the
      start or before its sweep are among them, and only such as have finished. */
  ghost predicate Swept(threads: seq<Conn>, reaped: seq<Conn>, start: set<Conn>, base: nat, rounds: seq<Round>, j: nat)
    requires j < |rounds| && base + j < |threads|
  {
    && (forall c :: c in start ==> c in reaped)
    && (forall t :: 0 <= t <= base + j ==>
          && (t in rounds[j].before ==> threads[t] in reaped)
          && (threads[t] in reaped ==> threads[t] in start || Mentioned(rounds, j + 1, t)))
  }

  /** Round `j` is over, with `mark` connections reaped after it. */
  ghost predicate RoundOver(threads: seq<Conn>, reaped: seq<Conn>,
                            start: set<Conn>, base: nat, rounds: seq<Round>, j: nat, mark: nat)
    requires j < |rounds| && base + j < |threads|
  {
    && threads[base + j].acceptedfd == rounds[j].fd
    && mark <= |reaped| && Swept(threads, reaped[..mark], start, base, rounds, j)
  }

  /** A run of as many rounds as there are marks, each the number of connections reaped after its
      round; `start` are the threads done at the start, `done` those done by now.  There is a
      sweep in every round.  A thread that is done and not reaped has finished in the last. */
  ghost predicate Progress(threads: seq<Conn>, reaped: seq<Conn>, done: set<Conn>,
                           start: set<Conn>, base: nat, rounds: seq<Round>, marks: seq<nat>)
  {
    && |marks| <= |rounds| && |threads| == base + |marks|
    && (forall j :: 0 <= j < |marks| ==> RoundOver(threads, reaped, start, base, rounds, j, marks[j]))
    && (forall t :: 0 <= t < |threads| && threads[t] in done ==> threads[t] in start || Mentioned(rounds, |marks|, t))
    && (marks == [] ==> done == start)
    && (marks != [] ==> marks[|marks| - 1] == |reaped| && Caught(threads, reaped, done, rounds[|marks| - 1]))
  }

  /** A thread that is done and still listed has finished during the sweep of this round. */
  ghost predicate Caught(threads: seq<Conn>, reaped: seq<Conn>, done: set<Conn>, round: Round) {
    forall t :: 0 <= t < |threads| && threads[t] in done && threads[t] !in reaped ==> Named(round.during, t)
  }

  /** What one round has done. */
  ghost predicate OneRound(threads: seq<Conn>, reaped: seq<Conn>, done: set<Conn>, was: set<Conn>, round: Round) {
    && threads != [] && threads[|threads| - 1].acceptedfd == round.fd
    && (forall c :: c in was ==> c in reaped) && (forall c :: c in reaped ==> c in done)
    && (forall t :: 0 <= t < |threads| && t in round.before ==> threads[t] in reaped)
    && (forall t :: 0 <= t < |threads| && threads[t] in done ==>
          threads[t] in was || t in round.before || Named(round.during, t))
    && Caught(threads, reaped, done, round)
  }

  lemma ProgressNext(threads: seq<Conn>, reaped: seq<Conn>, done: set<Conn>,
                     threads': seq<Conn>, reaped': seq<Conn>, done': set<Conn>,
                     start: set<Conn>, base: nat, rounds: seq<Round>, marks: seq<nat>)
    requires Progress(threads, reaped, done, start, base, rounds, marks) && |marks| < |rounds|
    requires threads <= threads' && |threads'| == |threads| + 1 && Distinct(threads')
    requires reaped <= reaped' && (forall c :: c in done ==> c in threads) && start <= done
    requires OneRound(threads', reaped', done', done, rounds[|marks|])
    ensures Progress(threads', reaped', done', start, base, rounds, marks + [|reaped'|])
  {
    var marks' := marks + [|reaped'|];
    MentionedNow(threads, done, threads', done', start, rounds, |marks|);
    forall j | 0 <= j < |marks'|
      ensures RoundOver(threads', reaped', start, base, rounds, j, marks'[j])
    {
      if j < |marks| {
        RoundStays(threads, reaped, threads', reaped', start, base, rounds, j, marks[j]);
      } else {
        assert reaped'[..|reaped'|] == reaped';
        SweptNow(threads', reaped', done', done, start, base, rounds, j);
      }
    }
  }

  lemma MentionedNow(threads: seq<Conn>, done: set<Conn>, threads': seq<Conn>, done': set<Conn>,
                     start: set<Conn>, rounds: seq<Round>, last: nat)
    requires threads <= threads' && Distinct(threads') && last < |rounds|
    requires forall c :: c in done ==> c in threads
    requires forall t :: 0 <= t < |threads| && threads[t] in done ==> threads[t] in start || Mentioned(rounds, last, t)
    requires forall t :: 0 <= t < |threads'| && threads'[t] in done' ==>
      threads'[t] in done || t in rounds[last].before || Named(rounds[last].during, t)
    ensures forall t :: 0 <= t < |threads'| && threads'[t] in done' ==>
      threads'[t] in start || Mentioned(rounds, last + 1, t)
  {
    forall t | 0 <= t < |threads'| && threads'[t] in done'
      ensures threads'[t] in start || Mentioned(rounds, last + 1, t)
    {
      if threads'[t] in done { assert t < |threads|; }
    }
  }

  lemma RoundStays(threads: seq<Conn>, reaped: seq<Conn>, threads': seq<Conn>, reaped': seq<Conn>,
                   start: set<Conn>, base: nat, rounds: seq<Round>, j: nat, mark: nat)
    requires j < |rounds| && base + j < |threads| && threads <= threads' && reaped <= reaped'
    requires RoundOver(threads, reaped, start, base, rounds, j, mark)
    ensures RoundOver(threads', reaped', start, base, rounds, j, mark)
  {
    assert reaped'[..mark] == reaped[..mark];
  }

  lemma SweptNow(threads: seq<Conn>, reaped: seq<Conn>, done: set<Conn>, was: set<Conn>,
                 start: set<Conn>, base: nat, rounds: seq<Round>, j: nat)
    requires j < |rounds| && |threads| == base + j + 1
    requires OneRound(threads, reaped, done, was, rounds[j]) && start <= was
    requires forall t :: 0 <= t < |threads| && threads[t] in done ==> threads[t] in start || Mentioned(rounds, j + 1, t)
    ensures Swept(threads, reaped, start, base, rounds, j)
  {
  }

  class Server {
    var first: Conn?          // slh_first
    var threads: seq<Conn>    // the argument of each thread created, in order
    var closed: seq<int>      // the descriptors closed, in order

    ghost var list: seq<Conn>
    ghost var reaped: seq<Conn>

    ghost predicate Valid()
      reads this, threads, list, reaped
    {
      && Accounted(threads, list, reaped)
      && first == Nth<Conn?>(list, 0, null)
      && (forall i :: 0 <= i < |list| ==> Linked(list, i))
      && |closed| == |reaped|
      && (forall i :: 0 <= i < |reaped| ==> closed[i] == reaped[i].acceptedfd && reaped[i].threadComplete)
    }

    ghost function All(): set<Conn>
      reads this
    {
      set c | c in threads
    }

    /** The connections whose threads are done. */
    ghost function Done(): set<Conn>
      reads this, threads
    {
      set c | c in threads && c.threadComplete
    }

    /** SLIST_INIT */
    constructor ()
      ensures Valid() && threads == [] && list == [] && reaped == []
    {
      first, threads, closed := null, [], [];
      list, reaped := [], [];
    }

    /** Reading a node's link: only of a node that has not been freed. */
    function Next(c: Conn): Conn?
      requires c !in reaped
      reads this, c
    {
      c.next
    }

    /** SLIST_REMOVE.  The search for the predecessor ends because `elm` is in the list. */
    method Remove(elm: Conn, ghost k: nat)
      requires Valid() && k < |list| && list[k] == elm
      modifies this`first, this`list, threads
      ensures list == old(list)[..k] + old(list)[k + 1..]
      ensures first == Nth<Conn?>(list, 0, null)
      ensures forall i :: 0 <= i < |list| ==> Linked(list, i)
      ensures forall c :: c in threads ==> c.threadComplete == old(c.threadComplete)
    {
      ghost var s := list;
      assert Linked(s, k);
      if first == elm {
        assert k == 0;
        first := Next(first);
      } else {
        var curelm := first;
        ghost var j := 0;
        var next := Next(curelm);
        assert Linked(s, 0);
        while next != elm
          invariant 0 <= j < k && curelm == s[j] && next == s[j + 1]
          decreases k - j
        {
          assert Linked(s, j + 1);
          curelm := next;
          j := j + 1;
          next := Next(curelm);
        }
        next := Next(next);
        assert curelm in list;
        curelm.next := next;
      }
      list := s[..k] + s[k + 1..];
      forall i | 0 <= i < |list|
        ensures Linked(list, i)
      {
        assert old(Linked(s, if i < k then i else i + 1));
      }
    }

    /** accept, malloc, SLIST_INSERT_HEAD and pthread_create */
    method Accept(fd: int)
      requires Valid()
      modifies this
      ensures Valid()
      ensures |threads| == |old(threads)| + 1 && threads[..|old(threads)|] == old(threads)
      ensures fresh(All() - old(All())) && fresh(threads[|old(threads)|])
      ensures threads[|old(threads)|].acceptedfd == fd && !threads[|old(threads)|].threadComplete
      ensures list == [threads[|old(threads)|]] + old(list) && reaped == old(reaped) && closed == old(closed)
    {
      var datap := new Conn(fd);
      datap.next := first;
      first := datap;
      threads := threads + [datap];
      list := [datap] + list;
      forall i | 0 <= i < |list|
        ensures Linked(list, i)
      {
        if i > 0 { assert old(Linked(list, i - 1)); }
      }
    }

    /** What the threads may do at any moment: some that still run finish. */
    method Finish(who: set<nat>)
      requires Valid()
      modifies threads
      ensures Valid()
      ensures forall c :: c in threads ==> c.next == old(c.next) && (old(c.threadComplete) ==> c.threadComplete)
      ensures forall i :: 0 <= i < |threads| ==>
        (threads[i].threadComplete <==> old(threads[i].threadComplete) || i in who)
    {
      forall i | i in who && i < |threads| && !threads[i].threadComplete {
        threads[i].threadComplete := true;
      }
      forall i | 0 <= i < |list|
        ensures Linked(list, i)
      {
        assert old(Linked(list, i));
      }
    }

    /** How far a sweep over `all` has come after the flags in `found`. */
    ghost predicate SweptUpTo(all: seq<Conn>, found: seq<bool>, reapedBefore: seq<Conn>)
      reads this, threads, list, reaped
    {
      && Valid() && |found| <= |all|
      && list == Pick(all[..|found|], found, false) + all[|found|..]
      && reaped == reapedBefore + Pick(all[..|found|], found, true)
    }

    /** Only the threads named have finished since those in `was` were done. */
    ghost predicate OnlyNamed(was: set<Conn>, during: seq<set<nat>>)
      reads this, threads
    {
      forall t :: 0 <= t < |threads| && threads[t].threadComplete ==> threads[t] in was || Named(during, t)
    }

    /** The flags read so far: set for every thread that was done before the sweep, and only for
        threads that are done now. */
    ghost predicate Faithful(all: seq<Conn>, found: seq<bool>, was: set<Conn>)
      reads this, all, was
    {
      && |found| <= |all|
      && (forall c :: c in was ==> c.threadComplete && c in threads)
      && (forall i :: 0 <= i < |found| ==> (all[i] in was ==> found[i]) && (found[i] ==> all[i].threadComplete))
      && (forall i :: 0 <= i < |all| ==> all[i] in threads)
    }

    /** Where a sweep stands that began with list `all` and with the threads in `was` done. */
    ghost predicate Sweeping(all: seq<Conn>, found: seq<bool>, reapedBefore: seq<Conn>, was: set<Conn>,
                             during: seq<set<nat>>)
      reads this, all, was, threads, list, reaped
    {
      SweptUpTo(all, found, reapedBefore) && Faithful(all, found, was) && OnlyNamed(was, during)
    }

    /** The body of the sweep for one node. */
    method Check(ghost all: seq<Conn>, ghost found: seq<bool>, ghost reapedBefore: seq<Conn>, datap: Conn)
      returns (ghost found': seq<bool>)
      requires SweptUpTo(all, found, reapedBefore) && |found| < |all| && all[|found|] == datap
      modifies this`first, this`closed, this`list, this`reaped, threads
      ensures SweptUpTo(all, found', reapedBefore) && found' == found + [old(datap.threadComplete)]
      ensures forall c :: c in threads ==> c.threadComplete == old(c.threadComplete)
    {
      found' := found + [datap.threadComplete];
      ghost var k := |Pick(all[..|found|], found, false)|;
      PickNext(all, found, datap.threadComplete, false);
      PickNext(all, found, datap.threadComplete, true);
      assert list[k] == datap;
      if datap.threadComplete {
        ReapAccounted(threads, list, reaped, k);
        Remove(datap, k);
        closed := closed + [datap.acceptedfd];
        reaped := reaped + [datap];
      }
    }

    /** The same, with the flag it has read on record. */
    method CheckAndRecord(ghost all: seq<Conn>, ghost found: seq<bool>, ghost reapedBefore: seq<Conn>,
                          ghost was: set<Conn>, ghost during: seq<set<nat>>, datap: Conn)
      returns (ghost found': seq<bool>)
      requires SweptUpTo(all, found, reapedBefore) && Faithful(all, found, was) && OnlyNamed(was, during)
      requires |found| < |all| && all[|found|] == datap
      modifies this`first, this`closed, this`list, this`reaped, threads
      ensures SweptUpTo(all, found', reapedBefore) && Faithful(all, found', was) && |found'| == |found| + 1
      ensures OnlyNamed(was, during)
    {
      found' := Check(all, found, reapedBefore, datap);
    }

    /** Threads finishing do not disturb a sweep under way. */
    method FinishDuring(ghost all: seq<Conn>, ghost found: seq<bool>, ghost reapedBefore: seq<Conn>,
                        ghost was: set<Conn>, ghost during: seq<set<nat>>, who: set<nat>)
      requires SweptUpTo(all, found, reapedBefore) && Faithful(all, found, was) && OnlyNamed(was, during)
      requires forall t :: t in who ==> Named(during, t)
      modifies threads
      ensures SweptUpTo(all, found, reapedBefore) && Faithful(all, found, was) && OnlyNamed(was, during)
    {
      Finish(who);
    }

    /** The node the sweep comes to has not been freed, and its link leads to the one behind it. */
    lemma NextOfVisited(all: seq<Conn>, found: seq<bool>, reapedBefore: seq<Conn>)
      requires SweptUpTo(all, found, reapedBefore) && |found| < |all|
      ensures all[|found|] !in reaped && all[|found|].next == Nth<Conn?>(all, |found| + 1, null)
    {
      var kept := Pick(all[..|found|], found, false);
      NextAfter(all, kept, |found|);
      assert Linked(list, |kept|);
    }

    /** One round of the sweep: the next node is looked up first, then threads may finish, then
        the flag is read. */
    method Visit(ghost all: seq<Conn>, ghost found: seq<bool>, ghost reapedBefore: seq<Conn>, ghost was: set<Conn>,
                 ghost during: seq<set<nat>>, datap: Conn, who: set<nat>)
      returns (npTemp: Conn?, ghost found': seq<bool>)
      requires Sweeping(all, found, reapedBefore, was, during) && |found| < |all| && all[|found|] == datap
      requires forall t :: t in who ==> Named(during, t)
      modifies this`first, this`closed, this`list, this`reaped, threads
      ensures Sweeping(all, found', reapedBefore, was, during) && |found'| == |found| + 1
      ensures npTemp == Nth<Conn?>(all, |found'|, null)
    {
      NextOfVisited(all, found, reapedBefore);
      npTemp := Next(datap);
      FinishDuring(all, found, reapedBefore, was, during, who);
      found' := CheckAndRecord(all, found, reapedBefore, was, during, datap);
    }

    /** The sweep: SLIST_FOREACH_SAFE with close, join, SLIST_REMOVE and free.  `during[j]` are
        threads that finish just before the `j`-th flag is read.  `found` are the flags as
        read: exactly those nodes are unlinked, closed and freed, the others stay in order;
        a thread that had finished before the sweep is found. */
    method Sweep(during: seq<set<nat>>) returns (ghost found: seq<bool>)
      requires Valid()
      modifies this`first, this`closed, this`list, this`reaped, threads
      ensures Valid()
      ensures |found| == |old(list)|
      ensures list == Pick(old(list), found, false) && reaped == old(reaped) + Pick(old(list), found, true)
      ensures forall i :: 0 <= i < |found| ==> (old(list[i].threadComplete) ==> found[i])
      ensures forall i :: 0 <= i < |found| ==> (found[i] ==> old(list)[i].threadComplete)
      ensures forall c :: c in threads && old(c.threadComplete) ==> c in reaped
      ensures OnlyNamed(old(Done()), during)
    {
      ghost var all := list;
      ghost var was := Done();
      found := Walk(during, was);
      assert all[..|found|] == all;
      AllReaped(all, found, was, old(reaped));
    }

    /** The loop of the sweep. */
    method Walk(during: seq<set<nat>>, ghost was: set<Conn>) returns (ghost found: seq<bool>)
      requires Valid() && was == Done()
      modifies this`first, this`closed, this`list, this`reaped, threads
      ensures |found| == |old(list)|
      ensures Sweeping(old(list), found, old(reaped), was, during)
    {
      found := [];
      ghost var all := list;
      var datap := first;
      var j: nat := 0;
      while datap != null
        invariant Sweeping(all, found, old(reaped), was, during) && datap == Nth<Conn?>(all, |found|, null)
        decreases |all| - |found|
      {
        datap, found := Visit(all, found, old(reaped), was, during, datap, if j < |during| then during[j] else {});
        j := j + 1;
      }
    }

    /** One turn of the accept loop: a connection comes in, some threads finish, and the sweep
        reaps whatever it finds done. */
    method ServeOne(round: Round)
      requires Valid()
      modifies this, threads
      ensures Valid()
      ensures |threads| == |old(threads)| + 1 && threads[..|old(threads)|] == old(threads)
      ensures fresh(All() - old(All())) && threads[|old(threads)|].acceptedfd == round.fd
      ensures old(reaped) <= reaped && old(closed) <= closed && old(Done()) <= Done()
      ensures OneRound(threads, reaped, Done(), old(Done()), round)
    {
      ghost var done := Done();
      Accept(round.fd);
      assert Done() == done;
      Finish(round.before);
      ghost var found := Sweep(round.during);
    }

    /** The accept loop of main, for any run of connections and any moments at which threads
        finish: every accepted connection is either listed or reaped, each reaped one was done
        and had its descriptor closed once, in order.  `marks` tells how many connections had
        been reaped after each round: there is a sweep in every round, which reaps the threads
        that finished before it, and no other than those that have finished. */
    method Serve(rounds: seq<Round>) returns (ghost marks: seq<nat>)
      requires Valid()
      modifies this, threads
      ensures Valid()
      ensures old(threads) <= threads && old(reaped) <= reaped && old(closed) <= closed
      ensures |marks| == |rounds|
      ensures Progress(threads, reaped, Done(), old(Done()), |old(threads)|, rounds, marks)
    {
      ghost var start, base := Done(), |threads|;
      marks := [];
      var i := 0;
      while i < |rounds|
        invariant 0 <= i <= |rounds| && Valid()
        invariant |marks| == i && Progress(threads, reaped, Done(), start, base, rounds, marks)
        invariant old(threads) <= threads && old(reaped) <= reaped && old(closed) <= closed
        invariant start <= Done() && fresh(All() - old(All()))
      {
        ghost var threads', reaped', done := threads, reaped, Done();
        ServeOne(rounds[i]);
        ProgressNext(threads', reaped', done, threads, reaped, Done(), start, base, rounds, marks);
        marks := marks + [|reaped|];
        i := i + 1;
      }
    }
  }
}
