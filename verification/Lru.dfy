/** The least-recently-used page cache in front of a store (src/pager/storage.rs). */
module LruCaches {
  import opened Keys
  import opened WalLog
  import opened Wals

  type Order = seq<nat>

  ghost predicate Distinct(s: Order) {
    forall i, j :: 0 <= i < j < |s| ==> s[i] != s[j]
  }

  /** The access list names each cached page exactly once. */
  ghost predicate Orders(s: Order, cache: Image) {
    Distinct(s) && (forall p :: p in s <==> p in cache) && |s| == |cache|
  }

  /** The first position of the page. */
  method Position(s: Order, p: nat) returns (i: Option<nat>)
    ensures i.None? ==> p !in s
    ensures i.Some? ==> i.value < |s| && s[i.value] == p
  {
    for k := 0 to |s|
      invariant forall j :: 0 <= j < k ==> s[j] != p
    {
      if s[k] == p {
        return Some(k);
      }
    }
    return None;
  }

  /** The access list with `p` moved to, or put at, the end. */
  ghost function Touched(s: Order, p: nat): Order {
    Without(s, p) + [p]
  }

  ghost function Without(s: Order, p: nat): Order {
    if s == [] then [] else if s[0] == p then Without(s[1..], p) else [s[0]] + Without(s[1..], p)
  }

  lemma {:induction false} WithoutIs(s: Order, p: nat)
    requires Distinct(s)
    ensures Distinct(Without(s, p)) && forall q :: q in Without(s, p) <==> q in s && q != p
    ensures |Without(s, p)| == |s| - (if p in s then 1 else 0)
  {
    if s != [] {
      WithoutIs(s[1..], p);
      assert s == [s[0]] + s[1..];
      assert s[0] !in s[1..];
    }
  }

  lemma {:induction false} WithoutAt(s: Order, i: nat)
    requires Distinct(s) && i < |s|
    ensures Without(s, s[i]) == s[..i] + s[i + 1..]
  {
    if i == 0 {
      WithoutNone(s[1..], s[0]);
    } else {
      WithoutAt(s[1..], i - 1);
      assert s[1..][..i - 1] == s[1..i] && s[1..][i..] == s[i + 1..];
      assert s[..i] == [s[0]] + s[1..i];
    }
  }

  lemma {:induction false} WithoutNone(s: Order, p: nat)
    requires p !in s
    ensures Without(s, p) == s
  {
    if s != [] {
      WithoutNone(s[1..], p);
    }
  }

  lemma {:induction false} PutSize(cache: Image, p: nat, data: Page)
    ensures |cache[p := data]| == |cache| + (if p in cache then 0 else 1)
  {
    var c := cache[p := data];
    assert c.Keys == cache.Keys + {p};
  }

  /** The access list after making room for a page, if there is need to. */
  ghost function Trimmed(s: Order, full: bool): Order {
    if full && s != [] then s[1..] else s
  }

  lemma {:induction false} TouchedLists(s: Order, cache: Image, p: nat, data: Page)
    requires Orders(s, cache)
    ensures Orders(Touched(s, p), cache[p := data])
    ensures |cache[p := data]| == |cache| + (if p in cache then 0 else 1)
  {
    hide Without;
    WithoutIs(s, p);
    PutSize(cache, p, data);
  }

  lemma {:induction false} OrdersDistinct(s: Order, cache: Image)
    requires Orders(s, cache)
    ensures Distinct(s)
  {
  }

  lemma {:induction false} NewTouched(s: Order, cache: Image, p: nat)
    requires Orders(s, cache) && p !in cache
    ensures Touched(s, p) == s + [p]
  {
    WithoutNone(s, p);
  }

  lemma {:induction false} EvictedLists(s: Order, cache: Image)
    requires Orders(s, cache) && s != []
    ensures Orders(s[1..], cache - {s[0]}) && |cache - {s[0]}| == |cache| - 1
  {
    var c := cache - {s[0]};
    assert c.Keys == cache.Keys - {s[0]};
    assert s == [s[0]] + s[1..];
  }

  class LruCache {
    const inner: DiskStorage
    const capacity: nat
    var cache: Image
    var order: Order
    var hits: nat
    var misses: nat

    /** Never over capacity, and the access list matches the cache. */
    ghost predicate Valid()
      reads this, inner, inner.wal
    {
      inner.Valid() && capacity >= 1 && |cache| <= capacity && Orders(order, cache)
    }

    /** Every cached page is what the store below would return. */
    ghost predicate Faithful()
      reads this, inner, inner.wal
    {
      forall p :: p in cache ==> cache[p] == inner.Content(p)
    }

    /** Only pages the store has handed out are cached. */
    ghost predicate Allocated()
      reads this, inner
    {
      forall p :: p in cache ==> p < inner.pageCount
    }

    constructor (inner: DiskStorage, capacity: nat)
      requires inner.Valid()
      ensures Valid() && Faithful() && Allocated()
      ensures this.inner == inner && this.capacity == (if capacity == 0 then 1 else capacity) && cache == map[]
    {
      this.inner := inner;
      this.capacity := if capacity == 0 then 1 else capacity;
      cache, order, hits, misses := map[], [], 0, 0;
    }

    /** Drop the page that was used longest ago. */
    method Evict()
      requires Valid()
      modifies this`cache, this`order
      ensures Valid()
      ensures old(order) == [] ==> cache == old(cache) && order == []
      ensures old(order) != [] ==>
          cache == old(cache) - {old(order)[0]} && order == old(order)[1..] && |cache| == |old(cache)| - 1
    {
      if |order| > 0 {
        EvictedLists(order, cache);
        cache, order := cache - {order[0]}, order[1..];
      }
    }

    method Touch(p: nat)
      requires Distinct(order)
      modifies this`order
      ensures order == Touched(old(order), p)
    {
      var at := Position(order, p);
      if at.Some? {
        WithoutAt(order, at.value);
        order := order[..at.value] + order[at.value + 1..];
      } else {
        WithoutNone(order, p);
      }
      order := order + [p];
    }

    method ReadNode(p: nat) returns (data: Page)
      requires Valid()
      modifies this
      ensures Valid() && data == (if p in old(cache) then old(cache)[p] else inner.Content(p))
      ensures old(Faithful()) ==> Faithful() && data == inner.Content(p)
      ensures old(Allocated()) && p < inner.pageCount ==> Allocated()
      ensures p in old(cache) ==> cache == old(cache) && order == Touched(old(order), p)
      ensures p !in old(cache) ==> p in cache && order == Trimmed(old(order), |old(cache)| >= capacity) + [p]
      ensures hits + misses == old(hits) + old(misses) + 1 && (hits > old(hits) <==> p in old(cache))
    {
      hide Orders, Touched, Without, Distinct, DiskStorage.Valid, DiskStorage.Content;
      if p in cache {
        data := Hit(p);
      } else {
        data := Miss(p);
      }
    }

    method Hit(p: nat) returns (data: Page)
      requires Valid() && p in cache
      modifies this`hits, this`order
      ensures Valid() && data == cache[p] && order == Touched(old(order), p) && hits == old(hits) + 1
    {
      hide Without, DiskStorage.Valid;
      hits := hits + 1;
      data := cache[p];
      TouchedLists(order, cache, p, data);
      Touch(p);
      assert cache[p := data] == cache;
    }

    method Miss(p: nat) returns (data: Page)
      requires Valid() && p !in cache
      modifies this`misses, this`cache, this`order
      ensures Valid() && data == inner.Content(p) && misses == old(misses) + 1
      ensures p in cache && cache[p] == data && forall q ::
          q in cache && q != p ==> q in old(cache) && cache[q] == old(cache)[q]
      ensures order == Trimmed(old(order), |old(cache)| >= capacity) + [p]
    {
      hide Orders, Without, Distinct, DiskStorage.Valid, DiskStorage.Content;
      misses := misses + 1;
      data := inner.ReadNode(p);
      if |cache| >= capacity {
        FullOrder();
        Evict();
      }
      TouchedLists(order, cache, p, data);
      NewTouched(order, cache, p);
      cache, order := cache[p := data], order + [p];
    }

    lemma {:induction false} FullOrder()
      requires Valid() && |cache| >= capacity
      ensures order != []
    {
    }

    method WriteNode(p: nat, data: Page)
      requires Valid()
      modifies this, inner.wal
      ensures Valid() && inner.Content(p) == data && (forall q :: q != p ==> inner.Content(q) == old(inner.Content(q)))
      ensures inner.wal.inTxn == old(inner.wal.inTxn)
      ensures inner.wal.inTxn ==> inner.wal.committed == old(inner.wal.committed)
      ensures inner.wal.inTxn && old(inner.wal.GetCommittedCopy(p)).None?
          ==> inner.wal.preImage == old(inner.wal.preImage)
      ensures old(Faithful()) ==> Faithful()
      ensures old(Allocated()) && p < inner.pageCount ==> Allocated()
      ensures order == Touched(Trimmed(old(order), |old(cache)| >= capacity), p) && p in cache && cache[p] == data
    {
      hide Orders, Without, DiskStorage.Valid, DiskStorage.Content;
      inner.WriteNode(p, data);
      if |cache| >= capacity {
        FullOrder();
        Evict();
      }
      OrdersDistinct(order, cache);
      TouchedLists(order, cache, p, data);
      cache := cache[p := data];
      Touch(p);
    }

    /** The new page bypasses the cache: safe exactly because no page is cached before it exists. */
    method AllocPage() returns (id: nat)
      requires Valid()
      modifies inner, inner.wal
      ensures Valid() && id == old(inner.pageCount) && inner.pageCount == id + 1
      ensures inner.Content(id) == Blank() && forall q :: q != id ==> inner.Content(q) == old(inner.Content(q))
      ensures inner.wal.inTxn == old(inner.wal.inTxn)
      ensures old(Faithful()) ==> (Faithful() <==> (id in cache ==> cache[id] == Blank()))
      ensures old(Allocated()) ==> Allocated() && id !in cache
    {
      id := inner.AllocPage();
    }

    method Flush()
      requires Valid()
      modifies this, inner, inner.wal
      ensures Valid() && cache == map[] && order == [] && inner.pageCount == old(inner.pageCount)
      ensures (forall p :: inner.Content(p) == old(inner.Content(p))) && inner.wal.inTxn == old(inner.wal.inTxn)
    {
      inner.Flush();
      cache, order := map[], [];
    }

    method BeginTxn()
      requires Valid()
      modifies inner.wal
      ensures Valid() && inner.wal.inTxn
      ensures inner.wal.dirty == map[] && inner.wal.preImage == map[] && inner.wal.committed == old(inner.wal.committed)
      ensures !old(inner.wal.inTxn) ==> forall p :: inner.Content(p) == old(inner.Content(p))
    {
      inner.BeginTxn();
    }

    method CommitTxn()
      requires Valid()
      modifies inner.wal
      ensures Valid() && !inner.wal.inTxn && forall p :: inner.Content(p) == old(inner.Content(p))
    {
      inner.CommitTxn();
    }

    /** What page `p` would read after a rollback now: a saved pre-image, else committed, else file. */
    ghost function Restored(p: nat): Page
      reads this, inner, inner.wal
    {
      Settled(inner.wal.committed + inner.wal.preImage, inner.file, p)
    }

    /** Rollback does not clear the cache: it is faithful afterwards if and only if, before, every
        cached page was what the rollback would restore. */
    method RollbackTxn()
      requires Valid()
      modifies inner.wal
      ensures Valid() && !inner.wal.inTxn && cache == old(cache)
      ensures forall p :: inner.Content(p) == old(Restored(p))
      ensures Faithful() <==> old(forall p :: p in cache ==> cache[p] == Restored(p))
    {
      inner.RollbackTxn();
    }

    /** One operation. */
    method Do(op: Op) returns (answer: seq<Page>)
      requires Valid() && Faithful() && Allocated() && Allowed(op, inner.pageCount, inner.wal.inTxn)
      modifies this, inner, inner.wal
      ensures Valid() && Faithful() && Allocated()
      ensures answer == AnswerTo(old(View()), op) && View() == After(old(View()), old(inner.pageCount), op)
      ensures inner.pageCount == CountAfter(old(inner.pageCount), op)
          && inner.wal.inTxn == InTxnAfter(old(inner.wal.inTxn), op)
    {
      hide Orders, DiskStorage.Valid, DiskStorage.Content;
      ghost var v, n := View(), inner.pageCount;
      answer := [];
      match op {
        case Read(p) =>
          var data := ReadNode(p);
          answer := [data];
        case Write(p, data) => WriteNode(p, data);
        case Alloc => var _ := AllocPage();
        case FlushAll => Flush();
        case BeginOp => BeginTxn();
        case CommitOp => CommitTxn();
      }
      Extensional(View(), After(v, n, op));
    }

    /** Any run of operations gives the answers the store alone would give. */
    method Run(ops: seq<Op>) returns (answers: seq<Page>)
      requires Valid() && Faithful() && Allocated() && Proper(ops, inner.pageCount, inner.wal.inTxn)
      modifies this, inner, inner.wal
      ensures Valid() && Faithful() && Allocated()
      ensures answers == Answers(old(View()), old(inner.pageCount), ops)
      ensures View() == ViewAfter(old(View()), old(inner.pageCount), ops)
    {
      hide Valid, Faithful, Allocated, After, AnswerTo;
      answers := [];
      ghost var v0, n0 := View(), inner.pageCount;
      assert ops[0..] == ops;
      for i := 0 to |ops|
        invariant Valid() && Faithful() && Allocated() && Proper(ops[i..], inner.pageCount, inner.wal.inTxn)
        invariant Answers(v0, n0, ops) == answers + Answers(View(), inner.pageCount, ops[i..])
        invariant ViewAfter(v0, n0, ops) == ViewAfter(View(), inner.pageCount, ops[i..])
      {
        assert ops[i..][0] == ops[i] && ops[i..][1..] == ops[i + 1..];
        var answer := Do(ops[i]);
        answers := answers + answer;
      }
    }

    /** The content of every page, as a value. */
    ghost function View(): (v: Pages)
      reads this, inner, inner.wal
      ensures Total(v) && forall p: nat :: v[p] == inner.Content(p)
    {
      imap p: nat | true :: inner.Content(p)
    }
  }

  type Pages = imap<nat, Page>

  ghost predicate Total(v: Pages) { forall p: nat :: p in v }

  lemma {:induction false} Extensional(v: Pages, w: Pages)
    requires Total(v) && Total(w) && forall p: nat :: v[p] == w[p]
    ensures v == w
  {
  }

  /** One page written in a transaction that is rolled back: whatever the capacity, the cache answers
      with the page that was rolled back, unless it is the blank page that the store returns. */
  method StaleAfterRollback(p: nat, data: Page, capacity: nat) returns (answer: Page, below: Page)
    ensures answer == data && below == Blank()
  {
    hide LruCache.Valid, LruCache.Faithful, LruCache.Allocated, Orders, Blank, Recovered, DiskStorage.Valid;
    NoFrames();
    var store := new DiskStorage.Open(map[], 0, 0, [], []);
    var lru := new LruCache(store, capacity);
    lru.BeginTxn();
    lru.WriteNode(p, data);
    lru.RollbackTxn();
    below := store.ReadNode(p);
    answer := lru.ReadNode(p);
  }

  lemma {:induction false} NoFrames()
    ensures Recovered([]) == map[] && WalLog.Flatten([]) == []
  {
  }

  datatype Op = Read(p: nat) | Write(p: nat, data: Page) | Alloc | FlushAll | BeginOp | CommitOp

  /** Only allocated pages are read and written, and transactions are not nested. */
  predicate Allowed(op: Op, n: nat, inTxn: bool) {
    match op
    case Read(p) => p < n
    case Write(p, _) => p < n
    case BeginOp => !inTxn
    case _ => true
  }

  predicate Proper(ops: seq<Op>, n: nat, inTxn: bool) {
    ops != [] ==> Allowed(ops[0], n, inTxn) && Proper(ops[1..], CountAfter(n, ops[0]), InTxnAfter(inTxn, ops[0]))
  }

  function CountAfter(n: nat, op: Op): nat { if op.Alloc? then n + 1 else n }

  function InTxnAfter(inTxn: bool, op: Op): bool { op.BeginOp? || (inTxn && !op.CommitOp?) }

  ghost function AnswerTo(v: Pages, op: Op): seq<Page>
    requires Total(v)
  {
    if op.Read? then [v[op.p]] else []
  }

  ghost function After(v: Pages, n: nat, op: Op): (w: Pages)
    requires Total(v)
    ensures Total(w)
  {
    match op
    case Write(p, data) => v[p := data]
    case Alloc => v[n := Blank()]
    case _ => v
  }

  /** What a store without a cache answers to the reads. */
  ghost function Answers(v: Pages, n: nat, ops: seq<Op>): seq<Page>
    requires Total(v)
    decreases ops
  {
    if ops == [] then [] else AnswerTo(v, ops[0]) + Answers(After(v, n, ops[0]), CountAfter(n, ops[0]), ops[1..])
  }

  /** What the store holds in the end. */
  ghost function ViewAfter(v: Pages, n: nat, ops: seq<Op>): Pages
    requires Total(v)
    decreases ops
  {
    if ops == [] then v else ViewAfter(After(v, n, ops[0]), CountAfter(n, ops[0]), ops[1..])
  }
}
