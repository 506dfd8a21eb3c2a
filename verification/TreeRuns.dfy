/** Whole runs: any sequence of inserts and deletes on any number of trees over one store, be it in
    memory or a file of encoded pages. */
module TreeRuns {
  import opened Keys
  import opened Records
  import opened Trees
  import opened TreeSteps
  import opened Codec
  import opened NodeSizes
  import opened Storage
  import opened BPlusTrees

  datatype Op = Insert(key: Key, value: Bytes) | Delete(key: Key)

  function Apply(m: map<Key, Bytes>, op: Op): map<Key, Bytes> {
    match op
    case Insert(k, v) => m[k := v]
    case Delete(k) => m - {k}
  }

  function ApplyAll(m: map<Key, Bytes>, ops: seq<Op>): map<Key, Bytes> {
    if ops == [] then m else Apply(ApplyAll(m, ops[..|ops| - 1]), ops[|ops| - 1])
  }

  /** What each operation reports: a delete says whether the key was there. */
  function Reports(m: map<Key, Bytes>, ops: seq<Op>): seq<bool> {
    if ops == [] then []
    else
      var before := ops[..|ops| - 1];
      var op := ops[|ops| - 1];
      Reports(m, before) + [op.Delete? && op.key in ApplyAll(m, before)]
  }

  /** The operations of a run that address tree number `i`. */
  function Addressed(run: seq<(nat, Op)>, i: nat): seq<Op> {
    if run == [] then []
    else
      var last := run[|run| - 1];
      Addressed(run[..|run| - 1], i) + (if last.0 == i then [last.1] else [])
  }

  /** The trees are valid, over this store, with true sizes, and share no page. */
  ghost predicate Apart(trees: seq<BPlusTree>, store: PageStore)
    reads trees, store
  {
    && store.Ready()
    && (forall i :: 0 <= i < |trees| ==>
          trees[i].store == store && trees[i].order >= 4 && trees[i].Valid() && trees[i].size == |trees[i].Contents()|)
    && (forall i, j :: 0 <= i < j < |trees| ==> trees[i] != trees[j] && Ids(trees[i].tree) !! Ids(trees[j].tree))
  }

  lemma {:induction false} Untouched(pages: Pages, pages': Pages, t: Tree, own: set<nat>, n: nat, h: nat, next: nat)
    requires Good(pages, t, n, h, MIN_RANK, MAX_RANK, None) && Below(Ids(t), next)
    requires Framed(pages, pages', own, next) && Ids(t) !! own
    ensures Good(pages', t, n, h, MIN_RANK, MAX_RANK, None)
  {
    hide Good, Ids;
    GoodFrame(pages, pages', t, n, h, MIN_RANK, MAX_RANK, None);
  }

  // ------------------------------------------------------------------
  // Page numbers left on file.
  // ------------------------------------------------------------------

  /** More than one insert can use. */
  const MARGIN: nat := 34

  function Power(h: nat): nat { if h == 0 then 1 else 2 * Power(h - 1) }

  /** From order 4 on every branch has two children, so a tree has twice the pages with each level. */
  lemma {:induction false} ManyPages(pages: Pages, t: Tree, n: nat, h: nat, lo: real, hi: real, nxt: Option<nat>)
    requires n >= 4 && Good(pages, t, n, h, lo, hi, nxt) && (t.Branch? ==> |t.keys| >= 1)
    ensures |Ids(t)| >= Power(h)
    decreases h
  {
    hide Good, GoodForest, Ids, IdsOf;
    NodeKind(pages, t, n, h, lo, hi, nxt);
    if t.Branch? {
      TwoParts(pages, t, n, h, lo, hi, nxt);
      ManyPages(pages, t.kids[0], n, h - 1, lo, Upper(t.keys, hi, 0), Next(t.kids, 0, nxt));
      ManyPages(pages, t.kids[1], n, h - 1, Lower(t.keys, lo, 1), Upper(t.keys, hi, 1), Next(t.kids, 1, nxt));
      Disjunct(Ids(t.kids[0]), Ids(t.kids[1]), Ids(t));
    } else {
      assert |Ids(t)| == 1 by { LeafOwn(t); }
    }
  }

  lemma {:induction false} LeafOwn(t: Tree)
    requires t.Leaf?
    ensures Ids(t) == {t.id}
  {
  }

  lemma {:induction false} TwoParts(pages: Pages, t: Tree, n: nat, h: nat, lo: real, hi: real, nxt: Option<nat>)
    requires n >= 4 && Good(pages, t, n, h, lo, hi, nxt) && t.Branch? && |t.keys| >= 1
    ensures h > 0 && |t.kids| == |t.keys| + 1
    ensures Ids(t.kids[0]) + Ids(t.kids[1]) <= Ids(t) && Ids(t.kids[0]) !! Ids(t.kids[1])
    ensures forall i :: 0 <= i <= 1 ==>
      && Good(pages, t.kids[i], n, h - 1, Lower(t.keys, lo, i), Upper(t.keys, hi, i), Next(t.kids, i, nxt))
      && (t.kids[i].Branch? ==> |t.kids[i].keys| >= 1)
  {
    hide Good, Ids;
    NodeKind(pages, t, n, h, lo, hi, nxt);
    Member(pages, t.keys, t.kids, 0, n, h - 1, lo, hi, nxt);
    Member(pages, t.keys, t.kids, 1, n, h - 1, lo, hi, nxt);
    FlatBranch(t.id, t.keys, t.kids);
    assert Occupied(t.kids[0], n) && Occupied(t.kids[1], n);
  }

  lemma {:induction false} Disjunct(a: set<nat>, b: set<nat>, c: set<nat>)
    requires a + b <= c && a !! b
    ensures |c| >= |a| + |b|
  {
    assert |a + b| == |a| + |b|;
    Fewer(a + b, c);
  }

  lemma {:induction false} Fewer(a: set<nat>, b: set<nat>)
    requires a <= b
    ensures |a| <= |b|
  {
    if a != {} {
      var x :| x in a;
      Fewer(a - {x}, b - {x});
    }
  }

  lemma {:induction false} FewBelow(ids: set<nat>, n: nat)
    requires Below(ids, n)
    ensures |ids| <= n
  {
    if n == 0 {
      assert ids == {};
    } else {
      FewBelow(ids - {n - 1}, n - 1);
    }
  }

  /** So a tree whose page numbers are u32 is at most 32 levels high. */
  lemma {:induction false} LowTree(t: BPlusTree)
    requires t.Valid() && t.order >= 4 && t.store.nextPage <= NONE_PAGE
    ensures t.height <= 32
  {
    hide Good, Ids;
    ManyPages(t.store.pages, t.tree, t.order, t.height, MIN_RANK, MAX_RANK, None);
    FewBelow(Ids(t.tree), t.store.nextPage);
    if t.height > 32 {
      Powers(t.height);
    }
  }

  lemma {:induction false} Powers(h: nat)
    requires h >= 32
    ensures Power(h) >= 0x1_0000_0000
  {
    if h > 32 {
      Powers(h - 1);
    } else {
      assert Power(8) == 0x100;
      assert Power(16) == 0x1_0000;
      assert Power(24) == 0x100_0000;
    }
  }

  /** On file, what is inserted is within the limits of the store. */
  ghost predicate Takes(store: PageStore, op: Op) {
    op.Insert? ==> SmallRecord(Record(op.key, op.value), store.room)
  }

  /** One operation on tree `i` leaves every other tree as it was. */
  method Step(trees: seq<BPlusTree>, store: PageStore, i: nat, op: Op) returns (report: bool)
    requires i < |trees| && Apart(trees, store) && Takes(store, op) && store.Spare(MARGIN)
    modifies trees[i], store
    ensures Apart(trees, store)
    ensures trees[i].Model() == Apply(old(trees[i].Model()), op)
    ensures forall j :: 0 <= j < |trees| && j != i ==> trees[j].Contents() == old(trees[j].Contents())
    ensures report == (op.Delete? && op.key in old(trees[i].Model()))
  {
    hide Good, Ids, Flat, ToMap;
    var t := trees[i];
    SizeCovers(t);
    if store.file {
      LowTree(t);
    }
    if op.Insert? {
      t.Insert(op.key, op.value);
      report := false;
    } else {
      var removed := t.Delete(op.key);
      report := removed.value;
    }
    forall j | 0 <= j < |trees| && j != i
      ensures trees[j].Valid() && Ids(trees[j].tree) !! Ids(t.tree)
    {
      assert Ids(trees[j].tree) !! old(Ids(t.tree));
      Untouched(old(store.pages), store.pages, trees[j].tree, old(Ids(t.tree)), trees[j].order, trees[j].height,
          old(store.nextPage));
    }
  }

  lemma {:induction false} SizeCovers(t: BPlusTree)
    requires t.Valid() && t.size == |t.Contents()|
    ensures forall k :: k in t.Model() ==> t.size > 0
  {
    assert t.Contents() == [] ==> t.Model() == map[];
  }

  /** Every interleaving of operations on trees that share a store gives each tree the map,
      and each operation the report, that it would have had alone.  On file the run stops where page
      numbers run out. */
  method Interleave(trees: seq<BPlusTree>, store: PageStore, run: seq<(nat, Op)>) returns (reports: seq<bool>)
    requires Apart(trees, store)
    requires forall x :: 0 <= x < |run| ==> run[x].0 < |trees| && Takes(store, run[x].1)
    modifies trees, store
    ensures Apart(trees, store)
    ensures |reports| <= |run| && (|reports| == |run| || !store.Spare(MARGIN))
    ensures forall i :: 0 <= i < |trees| ==>
      trees[i].Model() == ApplyAll(old(trees[i].Model()), Addressed(run[..|reports|], i))
    ensures forall x :: 0 <= x < |reports| ==>
      reports[x] == (run[x].1.Delete?
          && run[x].1.key in ApplyAll(old(trees[run[x].0].Model()), Addressed(run[..x], run[x].0)))
  {
    hide Good, Ids, Flat, ToMap, Apply, Addressed, ApplyAll;
    reports := [];
    assert run[..0] == [];
    forall i | 0 <= i < |trees|
      ensures trees[i].Model() == ApplyAll(trees[i].Model(), Addressed(run[..0], i))
    {
      NoOps(trees[i].Model(), i);
    }
    for x := 0 to |run|
      invariant Apart(trees, store)
      invariant forall i :: 0 <= i < |trees| ==>
        trees[i].Model() == ApplyAll(old(trees[i].Model()), Addressed(run[..x], i))
      invariant |reports| == x
      invariant forall y :: 0 <= y < x ==>
        reports[y] == (run[y].1.Delete?
            && run[y].1.key in ApplyAll(old(trees[run[y].0].Model()), Addressed(run[..y], run[y].0)))
    {
      if store.file && store.nextPage + MARGIN > NONE_PAGE {
        return;
      }
      var report := Step(trees, store, run[x].0, run[x].1);
      reports := reports + [report];
      forall i | 0 <= i < |trees|
        ensures trees[i].Model() == ApplyAll(old(trees[i].Model()), Addressed(run[..x + 1], i))
      {
        OneMore(old(trees[i].Model()), run, x, i);
      }
    }
    assert run[..|run|] == run;
  }

  lemma {:induction false} NoOps(m: map<Key, Bytes>, i: nat)
    ensures ApplyAll(m, Addressed([], i)) == m
  {
  }

  lemma {:induction false} OneMore(m: map<Key, Bytes>, run: seq<(nat, Op)>, x: nat, i: nat)
    requires x < |run|
    ensures ApplyAll(m, Addressed(run[..x + 1], i)) ==
      if run[x].0 == i then Apply(ApplyAll(m, Addressed(run[..x], i)), run[x].1)
          else ApplyAll(m, Addressed(run[..x], i))
  {
    var r := run[..x + 1];
    assert r[..|r| - 1] == run[..x] && r[|r| - 1] == run[x];
    var a := Addressed(run[..x], i);
    if run[x].0 == i {
      var b := a + [run[x].1];
      assert Addressed(r, i) == b && b[..|b| - 1] == a;
    } else {
      assert Addressed(r, i) == a + [] == a;
    }
  }

  /** From an empty tree: the map, the reports and the length of any sequence of operations. */
  method RunAlone(store: PageStore, order: nat, ops: seq<Op>) returns (tree: BPlusTree, reports: seq<bool>)
    requires order >= 4 && store.Ready() && store.Suits(order) && store.Spare(MARGIN)
    requires forall x :: 0 <= x < |ops| ==> Takes(store, ops[x])
    modifies store
    ensures fresh(tree) && tree.Valid() && tree.order == order && tree.store == store
    ensures |reports| <= |ops| && (|reports| == |ops| || !store.Spare(MARGIN))
    ensures var done := ops[..|reports|];
      tree.Model() == ApplyAll(map[], done) && tree.size == |ApplyAll(map[], done)| && reports == Reports(map[], done)
  {
    hide Good, Ids, Flat, ToMap;
    NoRecord();
    tree := new BPlusTree(order, store);
    reports := [];
    for x := 0 to |ops|
      invariant Apart([tree], store) && fresh(tree) && tree.order == order && tree.store == store
      invariant tree.Model() == ApplyAll(map[], ops[..x])
      invariant reports == Reports(map[], ops[..x]) && |reports| == x
    {
      if store.file && store.nextPage + MARGIN > NONE_PAGE {
        Sized(tree, ops[..x]);
        return;
      }
      assert ops[..x + 1][..x] == ops[..x] && [tree][0] == tree;
      var report := Step([tree], store, 0, ops[x]);
      reports := reports + [report];
    }
    assert ops[..|ops|] == ops;
    Sized(tree, ops);
  }

  lemma {:induction false} NoRecord()
    ensures ToMap([]) == map[]
  {
  }

  lemma {:induction false} Sized(tree: BPlusTree, ops: seq<Op>)
    requires Apart([tree], tree.store) && tree.Model() == ApplyAll(map[], ops)
    ensures tree.Valid() && tree.size == |ApplyAll(map[], ops)|
  {
    hide Good, Ids, Flat, ToMap;
    assert [tree][0] == tree;
    FlatOrdered(tree.store.pages, tree.tree, tree.order, tree.height, MIN_RANK, MAX_RANK, None);
    ToMapSize(tree.Contents());
  }

  /** A tree on file is a tree in memory: any operations within the limits give the same reports, and
      leave the same records in the same order, unless page numbers run out. */
  method FileAsMemory(order: nat, ghost limits: Limits, ops: seq<Op>)
    returns (inMemory: BPlusTree, onFile: BPlusTree, reports: seq<bool>, fileReports: seq<bool>)
    requires order >= 4 && PageBound(order, limits)
    requires forall x :: 0 <= x < |ops| && ops[x].Insert? ==> RecordSized(Record(ops[x].key, ops[x].value), limits)
    ensures inMemory.Valid() && onFile.Valid() && !inMemory.store.file && onFile.store.file
    ensures fileReports == reports || !onFile.store.Spare(MARGIN)
    ensures fileReports == reports ==>
      inMemory.Contents() == onFile.Contents() && inMemory.size == onFile.size
  {
    hide Good, Ids, Flat, ToMap, Reports, ApplyAll;
    var memory := new PageStore.InMemory();
    inMemory, reports := RunAlone(memory, order, ops);
    var file := new PageStore.OnFile(limits);
    onFile, fileReports := RunAlone(file, order, ops);
    assert ops[..|ops|] == ops;
    if |fileReports| == |ops| {
      FlatOrdered(memory.pages, inMemory.tree, order, inMemory.height, MIN_RANK, MAX_RANK, None);
      FlatOrdered(file.pages, onFile.tree, order, onFile.height, MIN_RANK, MAX_RANK, None);
      OneOrder(inMemory.Contents(), onFile.Contents());
    }
  }

  /** Ascending records are known from their map. */
  lemma {:induction false} OneOrder(a: seq<Record>, b: seq<Record>)
    requires Ascending(a) && Ascending(b) && ToMap(a) == ToMap(b)
    ensures a == b
  {
    hide ToMap;
    ToMapSize(a);
    ToMapSize(b);
    if a != [] {
      var x, y := a[0].key, b[0].key;
      LookupIsMap(a, x);
      LookupIsMap(b, x);
      LookupIsMap(a, y);
      LookupIsMap(b, y);
      if Rank(x) < Rank(y) {
        DropAbsent(b, x);
      } else if Rank(y) < Rank(x) {
        DropAbsent(a, y);
      }
      assert Less(x, y) || Less(y, x) || x == y;
      DropIsMap(a, x);
      DropIsMap(b, x);
      OneOrder(a[1..], b[1..]);
      assert a == [a[0]] + a[1..] && b == [b[0]] + b[1..];
    }
  }
}
