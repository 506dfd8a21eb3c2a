/** Page locks and their guards, over every interleaving (src/pager/page_lock.rs).  Each call runs
    under one mutex, so an interleaving is a sequence of calls and guard drops. */
module PageLocks {
  import opened Keys

  datatype LockMode = Shared | Exclusive

  datatype LockState = LockState(mode: LockMode, sharedCount: nat, exclusiveHolder: Option<nat>)

  datatype LockError = BlockedByExclusive | BlockedByShared | Deadlock

  datatype Guard = Guard(page: nat, mode: LockMode)

  datatype Locked = Ok(guard: Guard) | Err(error: LockError)

  type Locks = map<nat, LockState>

  /** The live guards of the page. */
  function Readers(live: multiset<Guard>, p: nat): nat { live[Guard(p, Shared)] }

  function Writers(live: multiset<Guard>, p: nat): nat { live[Guard(p, Exclusive)] }

  /** A live exclusive guard of a page is the only live guard of that page. */
  ghost predicate Exclusion(live: multiset<Guard>, p: nat) {
    Writers(live, p) > 0 ==> Writers(live, p) == 1 && Readers(live, p) == 0
  }

  /** The entry of the page says exactly which guards are live. */
  ghost predicate Tracks(locks: Locks, live: multiset<Guard>, p: nat) {
    && Exclusion(live, p)
    && (p in locks <==> Readers(live, p) + Writers(live, p) > 0)
    && (p in locks ==>
        && locks[p].sharedCount == Readers(live, p)
        && (locks[p].exclusiveHolder.Some? <==> Writers(live, p) > 0)
        && (locks[p].mode == Exclusive <==> Writers(live, p) > 0))
  }

  /** What one call or one drop does. */
  datatype Event = TryShared(page: nat) | TryExclusive(page: nat, thread: nat) | DropGuard(guard: Guard)

  /** The guards that are live after the event, said without any lock table. */
  function LiveAfter(live: multiset<Guard>, e: Event): multiset<Guard> {
    match e
    case TryShared(p) => if Writers(live, p) > 0 then live else live + multiset{Guard(p, Shared)}
    case TryExclusive(p, _) => if Readers(live, p) + Writers(live, p) > 0 then live
        else live + multiset{Guard(p, Exclusive)}
    case DropGuard(g) => live - multiset{g}
  }

  /** A guard is dropped once, while it is live. */
  predicate Possible(live: multiset<Guard>, es: seq<Event>)
    decreases es
  {
    es != [] ==> (es[0].DropGuard? ==> es[0].guard in live) && Possible(LiveAfter(live, es[0]), es[1..])
  }

  function LiveAfterAll(live: multiset<Guard>, es: seq<Event>): multiset<Guard>
    decreases es
  {
    if es == [] then live else LiveAfterAll(LiveAfter(live, es[0]), es[1..])
  }

  class PageLockManager {
    var locks: Locks
    ghost var live: multiset<Guard>

    ghost predicate Valid()
      reads this
    {
      forall p :: Tracks(locks, live, p)
    }

    constructor ()
      ensures Valid() && live == multiset{} && locks == map[]
    {
      locks, live := map[], multiset{};
    }

    method LockShared(page: nat) returns (r: Locked)
      requires Valid()
      modifies this
      ensures Valid() && live == LiveAfter(old(live), TryShared(page))
      ensures live == old(live) + (if r.Ok? then multiset{r.guard} else multiset{})
      ensures r == if Guard(page, Exclusive) in old(live) then Err(BlockedByExclusive) else Ok(Guard(page, Shared))
      ensures forall p :: p != page ==> (p in locks <==> p in old(locks)) && (p in locks ==> locks[p] == old(locks)[p])
    {
      assert Tracks(locks, live, page);
      if page in locks && locks[page].exclusiveHolder.Some? {
        return Err(BlockedByExclusive);
      }
      var state := if page in locks then locks[page] else LockState(Shared, 0, None);
      ghost var before, guards := locks, live;
      locks := locks[page := state.(sharedCount := state.sharedCount + 1)];
      live := live + multiset{Guard(page, Shared)};
      OtherPages(before, guards, locks, live, page);
      return Ok(Guard(page, Shared));
    }

    method LockExclusive(page: nat, thread: nat) returns (r: Locked)
      requires Valid()
      modifies this
      ensures Valid() && live == LiveAfter(old(live), TryExclusive(page, thread))
      ensures live == old(live) + (if r.Ok? then multiset{r.guard} else multiset{})
      ensures r == if Guard(page, Shared) in old(live) then Err(BlockedByShared)
                   else if Guard(page, Exclusive) in old(live) then Err(Deadlock) else Ok(Guard(page, Exclusive))
      ensures r.Ok? ==> page in locks && locks[page].exclusiveHolder == Some(thread)
      ensures forall p :: p != page ==> (p in locks <==> p in old(locks)) && (p in locks ==> locks[p] == old(locks)[p])
    {
      assert Tracks(locks, live, page);
      if page in locks {
        if locks[page].sharedCount > 0 {
          return Err(BlockedByShared);
        }
        if locks[page].exclusiveHolder.Some? {
          return Err(Deadlock);
        }
      }
      // an entry that passed both tests would stand for no guard, so there is none
      ghost var before, guards := locks, live;
      locks := locks[page := LockState(Exclusive, 0, Some(thread))];
      live := live + multiset{Guard(page, Exclusive)};
      OtherPages(before, guards, locks, live, page);
      return Ok(Guard(page, Exclusive));
    }

    method Drop(guard: Guard)
      requires Valid() && guard in live
      modifies this
      ensures Valid() && live == old(live) - multiset{guard}
      ensures forall p ::
          p != guard.page ==> (p in locks <==> p in old(locks)) && (p in locks ==> locks[p] == old(locks)[p])
    {
      var page := guard.page;
      assert Tracks(locks, live, page);
      ghost var before, guards := locks, live;
      live := live - multiset{guard};
      if page in locks {
        var state := locks[page];
        if guard.mode == Shared {
          var count := if state.sharedCount == 0 then 0 else state.sharedCount - 1;
          locks := if count == 0 && state.exclusiveHolder.None? then locks - {page}
              else locks[page := state.(sharedCount := count)];
        } else {
          locks := if state.sharedCount == 0 then locks - {page} else locks[page := state.(exclusiveHolder := None)];
        }
      }
      OtherPages(before, guards, locks, live, page);
    }

    /** Clearing the table keeps it right only if no guard is live. */
    method ReleaseAll()
      requires Valid()
      modifies this`locks
      ensures locks == map[] && (Valid() <==> live == multiset{})
    {
      locks := map[];
      if live != multiset{} {
        ghost var g :| g in live;
        GuardCounts(live, g);
        assert !Tracks(locks, live, g.page);
      }
    }

    /** Any interleaving of attempts and drops: the live guards are those of the plain rule, so
        exclusion holds after every event, whoever holds the guards. */
    method Run(es: seq<Event>)
      requires Valid() && Possible(live, es)
      modifies this
      ensures Valid() && live == LiveAfterAll(old(live), es)
    {
      assert es[0..] == es;
      for i := 0 to |es|
        invariant Valid() && Possible(live, es[i..]) && LiveAfterAll(old(live), es) == LiveAfterAll(live, es[i..])
      {
        assert es[i..][0] == es[i] && es[i..][1..] == es[i + 1..];
        match es[i] {
          case TryShared(p) => var _ := LockShared(p);
          case TryExclusive(p, t) => var _ := LockExclusive(p, t);
          case DropGuard(g) => Drop(g);
        }
      }
    }
  }

  lemma {:induction false} GuardCounts(live: multiset<Guard>, g: Guard)
    requires g in live
    ensures Readers(live, g.page) + Writers(live, g.page) > 0
  {
    if g.mode == Shared {
      assert g == Guard(g.page, Shared);
    } else {
      assert g == Guard(g.page, Exclusive);
    }
  }

  lemma {:induction false} OtherPages(locks: Locks, live: multiset<Guard>, locks': Locks, live': multiset<Guard>,
      page: nat)
    requires forall p :: Tracks(locks, live, p)
    requires forall p :: p != page ==> (p in locks' <==> p in locks) && (p in locks ==> locks'[p] == locks[p])
    requires forall p, m :: p != page ==> live'[Guard(p, m)] == live[Guard(p, m)]
    requires Tracks(locks', live', page)
    ensures forall p :: Tracks(locks', live', p)
  {
    forall p
      ensures Tracks(locks', live', p)
    {
      assert Tracks(locks, live, p);
    }
  }

  // ------------------------------------------------------------------
  // The protocol itself, from the empty table.
  // ------------------------------------------------------------------

  /** After every event of every interleaving, an exclusive guard is alone on its page. */
  lemma {:induction false} AlwaysExclusive(live: multiset<Guard>, es: seq<Event>, p: nat)
    requires Exclusion(live, p)
    ensures Exclusion(LiveAfterAll(live, es), p)
    decreases es
  {
    if es != [] {
      AlwaysExclusive(LiveAfter(live, es[0]), es[1..], p);
    }
  }

  /** Dropping every guard that was taken leaves no entry behind. */
  lemma {:induction false} NothingLeft(locks: Locks, live: multiset<Guard>)
    requires forall p :: Tracks(locks, live, p)
    ensures locks == map[] <==> live == multiset{}
  {
    if live != multiset{} {
      var g :| g in live;
      GuardCounts(live, g);
      assert Tracks(locks, live, g.page);
    }
    if locks != map[] {
      var p :| p in locks;
      assert Tracks(locks, live, p);
    }
  }
}
