/** Deletion at order 3: where rebalancing steps outside the children of a node. */
module TreeStuck {
  import opened Keys
  import opened Records
  import opened Trees
  import opened TreeSteps
  import opened TreeDelete
  import opened TreeInvariants
  import opened Storage
  import opened BPlusTrees

  /** Every well-formed tree of the order lets every key be deleted. */
  ghost predicate NeverStuckAt(n: nat) {
    forall pages: Pages, t: Tree, h: nat, k: Key ::
      Good(pages, t, n, h, MIN_RANK, MAX_RANK, None) && RootOccupied(t, n) ==> KeysLeft(t, k, n).Some?
  }

  /** Among the orders that the tree accepts, order 3 is the one at which a delete can get stuck. */
  lemma {:induction false} OnlyOrderThree(n: nat)
    requires n >= 3
    ensures NeverStuckAt(n) <==> n != 3
  {
    if n == 3 {
      var pages, t := StuckAtOrderThree();
      assert KeysLeft(t, Integer(3), 3).None?;
    } else {
      forall pages: Pages, t: Tree, h: nat, k: Key | Good(pages, t, n, h, MIN_RANK, MAX_RANK, None)
          && RootOccupied(t, n)
        ensures KeysLeft(t, k, n).Some?
      {
        NeverStuck(pages, t, k, n, h, MIN_RANK, MAX_RANK, None);
      }
    }
  }

  /** The pages that inserting 1, 2 and 3 at order 3 leaves: the right branch has one child, and
      deleting 3 empties that child, which has no neighbour on either side. */
  lemma {:induction false} StuckAtOrderThree() returns (pages: Pages, t: Tree)
    ensures Good(pages, t, 3, 2, MIN_RANK, MAX_RANK, None) && RootOccupied(t, 3)
    ensures Flat(t) == [Record(Integer(1), []), Record(Integer(2), []), Record(Integer(3), [])]
    ensures KeysLeft(t, Integer(3), 3).None?
  {
    hide Good, GoodForest, IdsOf, Ids, FirstLeaf, AllOccupied, Flat, FlatOf, KeysLeft;
    var r1, r2, r3 := Record(Integer(1), []), Record(Integer(2), []), Record(Integer(3), []);
    var l1, l2, l3 := Leaf(0, [r1]), Leaf(1, [r2]), Leaf(3, [r3]);
    var b1, b2 := Branch(2, [Integer(2)], [l1, l2]), Branch(4, [], [l3]);
    t := Branch(5, [Integer(3)], [b1, b2]);
    pages := map[
      0 := Node(LeafNode, [Integer(1)], [], [r1], Some(1)),
      1 := Node(LeafNode, [Integer(2)], [], [r2], Some(3)),
      2 := Node(InternalNode, [Integer(2)], [0, 1], [], None),
      3 := Node(LeafNode, [Integer(3)], [], [r3], None),
      4 := Node(InternalNode, [], [3], [], None),
      5 := Node(InternalNode, [Integer(3)], [2, 4], [], None)];
    LeftBranch(pages, b1);
    RightBranch(pages, b2);
    IdsSelf(b1); IdsSelf(b2);
    FirstKid(2, b1.keys, b1.kids);
    FirstKid(4, b2.keys, b2.kids);
    TwoTrees(pages, Integer(3), b1, b2, 3, 1, MIN_RANK, MAX_RANK, None);
    OccupiedPair(b1, b2, 3);
    Assemble(pages, t, 3, 2, MIN_RANK, MAX_RANK, None);
    LoneChild(t);
    FlatTwo(b1, b2);
    FlatTwo(l1, l2);
    FlatOne(l3);
    LeafFlat(l1); LeafFlat(l2); LeafFlat(l3);
    FlatBranch(5, t.keys, [b1, b2]);
    FlatBranch(2, b1.keys, [l1, l2]);
    FlatBranch(4, b2.keys, [l3]);
  }

  /** The left branch of that tree. */
  lemma {:induction false} LeftBranch(pages: Pages, b1: Tree)
    requires var r1, r2 := Record(Integer(1), []), Record(Integer(2), []);
      && b1 == Branch(2, [Integer(2)], [Leaf(0, [r1]), Leaf(1, [r2])])
      && 0 in pages && pages[0] == Node(LeafNode, [Integer(1)], [], [r1], Some(1))
      && 1 in pages && pages[1] == Node(LeafNode, [Integer(2)], [], [r2], Some(3))
      && 2 in pages && pages[2] == Node(InternalNode, [Integer(2)], [0, 1], [], None)
    ensures Good(pages, b1, 3, 1, MIN_RANK, 3.0, Some(3)) && Ids(b1) == {0, 1, 2} && FirstLeaf(b1) == 0
  {
    hide Good, GoodForest, IdsOf, Ids, FirstLeaf, AllOccupied;
    var l1, l2 := b1.kids[0], b1.kids[1];
    GoodLeaf(pages, l1, 3, MIN_RANK, 2.0, Some(1));
    GoodLeaf(pages, l2, 3, 2.0, 3.0, Some(3));
    LeafOwn(l1); LeafOwn(l2);
    TwoTrees(pages, Integer(2), l1, l2, 3, 0, MIN_RANK, 3.0, Some(3));
    OccupiedPair(l1, l2, 3);
    Assemble(pages, b1, 3, 1, MIN_RANK, 3.0, Some(3));
    PairIds(b1);
  }

  /** The right branch, with its one child. */
  lemma {:induction false} RightBranch(pages: Pages, b2: Tree)
    requires var r3 := Record(Integer(3), []);
      && b2 == Branch(4, [], [Leaf(3, [r3])])
      && 3 in pages && pages[3] == Node(LeafNode, [Integer(3)], [], [r3], None)
      && 4 in pages && pages[4] == Node(InternalNode, [], [3], [], None)
    ensures Good(pages, b2, 3, 1, 3.0, MAX_RANK, None) && Ids(b2) == {3, 4} && FirstLeaf(b2) == 3
  {
    hide Good, GoodForest, IdsOf, Ids, FirstLeaf, AllOccupied;
    var l3 := b2.kids[0];
    GoodLeaf(pages, l3, 3, 3.0, MAX_RANK, None);
    LeafOwn(l3);
    OneTree(pages, l3, 3, 0, 3.0, MAX_RANK, None);
    OneFits(l3);
    Assemble(pages, b2, 3, 1, 3.0, MAX_RANK, None);
    OnlyIds(b2);
  }

  lemma {:induction false} PairIds(t: Tree)
    requires t.Branch? && |t.kids| == 2 && t.kids[0].Leaf? && t.kids[1].Leaf?
    ensures Ids(t) == {t.id, t.kids[0].id, t.kids[1].id} && FirstLeaf(t) == t.kids[0].id
  {
    LeafOwn(t.kids[0]); LeafOwn(t.kids[1]);
  }

  lemma {:induction false} OnlyIds(t: Tree)
    requires t.Branch? && |t.kids| == 1 && t.kids[0].Leaf?
    ensures Ids(t) == {t.id, t.kids[0].id} && FirstLeaf(t) == t.kids[0].id
  {
    LeafOwn(t.kids[0]);
  }

  lemma {:induction false} LeafOwn(t: Tree)
    requires t.Leaf?
    ensures Ids(t) == {t.id} && FirstLeaf(t) == t.id
  {
  }

  lemma {:induction false} OneFits(t: Tree)
    requires t.Leaf? && |t.recs| == 1
    ensures AllOccupied([t], 3)
  {
  }

  /** At order 3, deleting from a one-record leaf below a keyless branch gets stuck. */
  lemma {:induction false} LoneChild(t: Tree)
    requires t.Branch? && |t.kids| == 2 && |t.keys| == 1 && t.kids[1].Branch?
    requires t.kids[1].keys == [] && |t.kids[1].kids| == 1 && t.kids[1].kids[0].Leaf? && |t.kids[1].kids[0].recs| == 1
    ensures Rank(t.keys[0]) <= Rank(t.kids[1].kids[0].recs[0].key) ==>
      KeysLeft(t, t.kids[1].kids[0].recs[0].key, 3).None?
  {
    var b := t.kids[1];
    var leaf := b.kids[0];
    var k := leaf.recs[0].key;
    if Rank(t.keys[0]) <= Rank(k) {
      assert UpperBound(t.keys, k) == 1 && UpperBound(b.keys, k) == 0;
      assert Lookup(leaf.recs, k).Some?;
      assert KeysLeft(leaf, k, 3) == Some(0);
      assert Flat(leaf) == leaf.recs;
      assert KeysKept(b, 0, 0, 3).None?;
      assert KeysLeft(b, k, 3).None?;
    }
  }

  // ------------------------------------------------------------------
  // The same through the operations of the tree.
  // ------------------------------------------------------------------

  /** Below the root every subtree of order 3 holds a record. */
  lemma {:induction false} Inhabited(pages: Pages, t: Tree, h: nat, lo: real, hi: real, nxt: Option<nat>)
    requires Good(pages, t, 3, h, lo, hi, nxt) && (t.Leaf? ==> |t.recs| >= 1)
    ensures |Flat(t)| >= 1
    decreases h
  {
    hide Good, GoodForest, Ids, IdsOf, FlatOf;
    NodeKind(pages, t, 3, h, lo, hi, nxt);
    if t.Branch? {
      Member(pages, t.keys, t.kids, 0, 3, h - 1, lo, hi, nxt);
      assert Occupied(t.kids[0], 3);
      Inhabited(pages, t.kids[0], h - 1, Lower(t.keys, lo, 0), Upper(t.keys, hi, 0), Next(t.kids, 0, nxt));
      FirstPart(t.kids);
    }
  }

  lemma {:induction false} FirstPart(ts: seq<Tree>)
    requires ts != []
    ensures FlatOf(ts) == Flat(ts[0]) + FlatOf(ts[1..])
    ensures |ts| == 1 ==> FlatOf(ts) == Flat(ts[0])
    ensures |ts| == 2 ==> FlatOf(ts) == Flat(ts[0]) + Flat(ts[1])
  {
    hide Flat;
    if |ts| == 1 {
      FlatOne(ts[0]);
      assert ts == [ts[0]];
    } else if |ts| == 2 {
      FlatTwo(ts[0], ts[1]);
      assert ts == [ts[0], ts[1]];
    }
  }

  /** How many records a whole tree of order 3 can hold at heights 0 and 1. */
  lemma {:induction false} FewRecords(pages: Pages, t: Tree, h: nat)
    requires Good(pages, t, 3, h, MIN_RANK, MAX_RANK, None) && RootOccupied(t, 3)
    ensures h == 0 ==> |Flat(t)| <= 1
    ensures h > 0 ==> |Flat(t)| >= 2
    ensures h == 1 && Thin(t, 3) ==> |Flat(t)| <= 2
  {
    hide Good, GoodForest, Ids, IdsOf, Flat, FlatOf;
    NodeKind(pages, t, 3, h, MIN_RANK, MAX_RANK, None);
    if t.Leaf? {
      assert Flat(t) == t.recs by { LeafFlat(t); }
    } else {
      Two(pages, t, h);
      FlatBranch(t.id, t.keys, t.kids);
      FirstPart(t.kids);
      FirstPart(t.kids[1..]);
    }
  }

  lemma {:induction false} LeafFlat(t: Tree)
    requires t.Leaf?
    ensures Flat(t) == t.recs
  {
  }

  /** The first two children of a root. */
  lemma {:induction false} Two(pages: Pages, t: Tree, h: nat)
    requires Good(pages, t, 3, h, MIN_RANK, MAX_RANK, None) && t.Branch? && |t.keys| >= 1
    ensures h > 0 && |t.kids| == |t.keys| + 1
    ensures |Flat(t.kids[0])| >= 1 && |Flat(t.kids[1])| >= 1
    ensures h == 1 ==> |Flat(t.kids[0])| == 1 && |Flat(t.kids[1])| == 1
  {
    hide Good, GoodForest, Ids, IdsOf, Flat, FlatOf;
    NodeKind(pages, t, 3, h, MIN_RANK, MAX_RANK, None);
    forall i | i == 0 || i == 1
      ensures |Flat(t.kids[i])| >= 1 && (h == 1 ==> |Flat(t.kids[i])| == 1)
    {
      OneKid(pages, t, i, h);
    }
  }

  lemma {:induction false} OneKid(pages: Pages, t: Tree, i: nat, h: nat)
    requires Good(pages, t, 3, h, MIN_RANK, MAX_RANK, None) && t.Branch? && i < |t.kids|
    ensures h > 0 && |t.kids| == |t.keys| + 1 && |Flat(t.kids[i])| >= 1 && (t.kids[i].Leaf? <==> h == 1)
    ensures h == 1 ==> |Flat(t.kids[i])| == 1
    ensures t.kids[i].Branch? ==> |t.kids[i].kids| == |t.kids[i].keys| + 1
    ensures t.kids[i].Branch? && h == 2 ==>
      forall j :: 0 <= j < |t.kids[i].kids| ==> t.kids[i].kids[j].Leaf? && |t.kids[i].kids[j].recs| == 1
    ensures forall r :: r in Flat(t.kids[i]) ==> Lower(t.keys, MIN_RANK, i) <= Rank(r.key)
  {
    hide Good, GoodForest, Ids, IdsOf, Flat, FlatOf;
    NodeKind(pages, t, 3, h, MIN_RANK, MAX_RANK, None);
    Member(pages, t.keys, t.kids, i, 3, h - 1, MIN_RANK, MAX_RANK, None);
    var c, lo, hi, nx := t.kids[i], Lower(t.keys, MIN_RANK, i), Upper(t.keys, MAX_RANK, i), Next(t.kids, i, None);
    assert Occupied(c, 3);
    NodeKind(pages, c, 3, h - 1, lo, hi, nx);
    Inhabited(pages, c, h - 1, lo, hi, nx);
    FlatOrdered(pages, c, 3, h - 1, lo, hi, nx);
    if c.Leaf? {
      LeafFlat(c);
    } else if h == 2 {
      forall j | 0 <= j < |c.kids|
        ensures c.kids[j].Leaf? && |c.kids[j].recs| == 1
      {
        Member(pages, c.keys, c.kids, j, 3, 0, lo, hi, nx);
        assert Occupied(c.kids[j], 3);
        NodeKind(pages, c.kids[j], 3, 0, Lower(c.keys, lo, j), Upper(c.keys, hi, j), Next(c.kids, j, nx));
      }
    }
  }

  /** The last record of a tree of height 2 whose right branch is keyless cannot be deleted. */
  lemma {:induction false} LastIsStuck(pages: Pages, t: Tree)
    requires Good(pages, t, 3, 2, MIN_RANK, MAX_RANK, None) && t.Branch? && |t.kids| == 2
    requires t.kids[1].Branch? ==> |t.kids[1].keys| == 0
    ensures Flat(t) != [] && KeysLeft(t, Flat(t)[|Flat(t)| - 1].key, 3).None?
  {
    hide Good, GoodForest, Ids, IdsOf, KeysLeft, FlatOf, Flat;
    OneKid(pages, t, 1, 2);
    var b := t.kids[1];
    FlatBranch(t.id, t.keys, t.kids);
    FirstPart(t.kids);
    FlatBranch(b.id, b.keys, b.kids);
    FirstPart(b.kids);
    LeafFlat(b.kids[0]);
    var r := b.kids[0].recs[0];
    assert r in Flat(b) && Flat(t)[|Flat(t)| - 1] == r;
    LoneChild(t);
  }

  /** Three inserts into an empty tree of order 3, and then a delete that panics. */
  method DeletePanics() returns (removed: Option<bool>)
    ensures removed.None?
  {
    hide Good, GoodForest, Ids, IdsOf, Flat, KeysLeft, Thin, ToMap, Put, Less, Framed, Grown, TreeWithout, Collapsed,
      Repaired;
    var tree := ThreeInserts();
    KindAt(tree.store.pages, tree.tree, tree.height);
    LastIsStuck(tree.store.pages, tree.tree);
    removed := tree.Delete(Integer(3));
  }

  method ThreeInserts() returns (tree: BPlusTree)
    ensures fresh(tree) && fresh(tree.store) && tree.Valid() && tree.order == 3
    ensures tree.height == 2 && tree.tree.Branch? && |tree.tree.kids| == 2
    ensures tree.tree.kids[1].Branch? ==> |tree.tree.kids[1].keys| == 0
    ensures tree.Contents() == [Record(Integer(1), []), Record(Integer(2), []), Record(Integer(3), [])]
  {
    hide Good, GoodForest, Ids, IdsOf, Flat, KeysLeft, Thin, ToMap, Put, Less, Framed, Grown;
    var store := new PageStore.InMemory();
    tree := new BPlusTree(3, store);
    LeafIsThin(tree.tree);
    PutsInOrder();
    tree.Insert(Integer(1), []);
    FewRecords(store.pages, tree.tree, tree.height);
    tree.Insert(Integer(2), []);
    FewRecords(store.pages, tree.tree, tree.height);
    tree.Insert(Integer(3), []);
    FewRecords(store.pages, tree.tree, tree.height);
    var r1, r2, r3 := Record(Integer(1), []), Record(Integer(2), []), Record(Integer(3), []);
    assert tree.Contents() == [r1, r2, r3];
    KindAt(store.pages, tree.tree, tree.height);
  }

  lemma {:induction false} PutsInOrder()
    ensures var r1, r2, r3 := Record(Integer(1), []), Record(Integer(2), []), Record(Integer(3), []);
      Put([], r1) == [r1] && Put([r1], r2) == [r1, r2] && Put([r1, r2], r3) == [r1, r2, r3]
  {
    var r1, r2, r3 := Record(Integer(1), []), Record(Integer(2), []), Record(Integer(3), []);
    assert [r1, r2][1..] == [r2] && [r1][1..] == [];
    assert Put([r1], r2) == [r1] + Put([], r2);
    assert Put([r1, r2], r3) == [r1] + Put([r2], r3) && Put([r2], r3) == [r2] + Put([], r3);
  }

  lemma {:induction false} LeafIsThin(t: Tree)
    requires t.Leaf?
    ensures forall n :: Thin(t, n)
  {
  }

  lemma {:induction false} KindAt(pages: Pages, t: Tree, h: nat)
    requires Good(pages, t, 3, h, MIN_RANK, MAX_RANK, None)
    ensures t.Leaf? <==> h == 0
  {
    hide Good;
    NodeKind(pages, t, 3, h, MIN_RANK, MAX_RANK, None);
  }
}
