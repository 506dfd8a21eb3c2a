/** The B+Tree over shared pages (src/btree/tree.rs). */
module BPlusTrees {
  import opened Keys
  import opened Records
  import opened Trees
  import opened TreeSteps
  import opened NodeSizes
  import opened TreeDelete
  import opened TreeScan
  import opened Storage

  class BPlusTree {
    const order: nat
    const store: PageStore
    var root: nat
    var size: nat
    ghost var tree: Tree
    ghost var height: nat

    /** The pages hold a tree of this order; every node is within its occupancy bounds. */
    ghost predicate Valid()
      reads this, store
    {
      && order >= 3 && root == tree.id && store.Ready() && store.Suits(order)
      && Below(Ids(tree), store.nextPage)
      && Good(store.pages, tree, order, height, MIN_RANK, MAX_RANK, None)
      && RootOccupied(tree, order)
    }

    ghost function Contents(): seq<Record>
      reads this
    {
      Flat(tree)
    }

    ghost function Model(): map<Key, Bytes>
      reads this
    {
      ToMap(Contents())
    }

    constructor (order: nat, store: PageStore)
      requires order >= 3 && store.Ready() && store.Suits(order) && store.Spare(1)
      modifies store
      ensures this.order == order && this.store == store
      ensures Valid() && Contents() == [] && size == 0 && tree.Leaf? && height == 0
      ensures Framed(old(store.pages), store.pages, {}, old(store.nextPage))
      ensures Grown(Ids(tree), {}, old(store.nextPage), store.nextPage)
    {
      this.order, this.store := order, store;
      var id := store.AllocPage();
      SmallEmpty(store.room);
      store.WriteSmall(id, EmptyLeaf(), order);
      root, size := id, 0;
      tree, height := Leaf(id, []), 0;
    }

    /** Opening looks at no page: the tree is valid if and only if the pages from its root on are. */
    constructor Open(order: nat, store: PageStore, root: nat, size: nat, ghost t: Tree, ghost h: nat)
      ensures this.order == order && this.store == store && this.root == root && this.size == size
      ensures tree == t && height == h
      ensures Valid() <==>
        && order >= 3 && t.id == root && Below(Ids(t), store.nextPage) && store.Ready() && store.Suits(order)
        && Good(store.pages, t, order, h, MIN_RANK, MAX_RANK, None) && RootOccupied(t, order)
    {
      this.order, this.store, this.root, this.size := order, store, root, size;
      tree, height := t, h;
    }

    /** The height is the old one or, under a new root with two children, one more; then the right
        child, if it is a branch, is the right half of a full one. */
    ghost predicate Heightened(oldHeight: nat)
      reads this
    {
      || height == oldHeight
      || (height == oldHeight + 1 && tree.Branch? && |tree.kids| == 2
          && (tree.kids[1].Branch? ==> |tree.kids[1].keys| == order - 2 - (order - 1) / 2))
    }

    /** On file the record must be within the limits, and page numbers left. */
    method Insert(key: Key, value: Bytes)
      requires Valid() && SmallRecord(Record(key, value), store.room) && store.Spare(height + 2)
      modifies this, store
      ensures Valid()
      ensures Contents() == Put(old(Contents()), Record(key, value))
      ensures Model() == old(Model())[key := value]
      ensures size == (if key in old(Model()) then SatSub(old(size), 1) else old(size)) + 1
      ensures old(size == |Contents()|) ==> size == |Contents()|
      ensures Grown(Ids(tree), old(Ids(tree)), old(store.nextPage), store.nextPage)
      ensures old(store.nextPage) <= store.nextPage <= old(store.nextPage + height) + 2
      ensures Framed(old(store.pages), store.pages, old(Ids(tree)), old(store.nextPage))
      ensures old(Thin(tree, order)) ==> Thin(tree, order) && Heightened(old(height))
    {
      hide Good, GoodForest, FlatOf, Put, FirstLeaf, IdsOf, AllOccupied, Ascending, Within, Lookup, Small, SmallKey,
        SmallRecord, Thin, StaysThin, ToMap, Flat;
      var r := Record(key, value);
      RankBounds(key);
      FlatOrdered(store.pages, tree, order, height, MIN_RANK, MAX_RANK, None);
      PutFacts(Contents(), r);
      var split, kw, w := InsertRecursive(root, r, tree, height, MIN_RANK, MAX_RANK, None);
      if split.Some? {
        root := NewRoot(root, split.value.0, split.value.1, kw, w, height);
        tree, height := Branch(root, kw, w), height + 1;
        RootThin(old(tree), tree, order);
      } else {
        OnlyTree(store.pages, kw, w, order, height, MIN_RANK, MAX_RANK, None);
        AloneThin(tree, w, order);
        tree := w[0];
      }
      size := size + 1;
    }

    /** A root over the two halves of the old one. */
    method NewRoot(left: nat, midKey: Key, right: nat, ghost kw: seq<Key>, ghost w: seq<Tree>, ghost h: nat)
      returns (id: nat)
      requires order >= 3 && store.Ready() && store.Suits(order) && store.Spare(1)
      requires SplitSmall(Some((midKey, right))) && |w| == 2 && kw == [midKey] && w[0].id == left && w[1].id == right
      requires GoodForest(store.pages, kw, w, order, h, MIN_RANK, MAX_RANK, None) && AllOccupied(w, order)
      requires Below(IdsOf(w), store.nextPage) && SmallId(left, store.room)
      modifies store
      ensures store.Ready() && id == old(store.nextPage) && store.nextPage == id + 1
      ensures Good(store.pages, Branch(id, kw, w), order, h + 1, MIN_RANK, MAX_RANK, None)
      ensures store.pages.Keys == old(store.pages.Keys) + {id}
      ensures forall q :: q in old(store.pages) && q != id ==> store.pages[q] == old(store.pages)[q]
      ensures Flat(Branch(id, kw, w)) == FlatOf(w) && Ids(Branch(id, kw, w)) == {id} + IdsOf(w)
    {
      hide GoodForest, FlatOf, IdsOf, Small, SmallKey;
      var newRoot := EmptyInternal().(keys := [midKey], children := [left, right]);
      id := store.AllocPage();
      SmallRoot(midKey, left, right, store.room);
      store.WriteSmall(id, newRoot, order);
      RootGrown(old(store.pages), store.pages, id, kw, w, order, h);
      FlatBranch(id, kw, w);
    }

    /** The separator and the page number of the new node are within the limits. */
    ghost predicate SplitSmall(split: Option<(Key, nat)>) {
      split.Some? ==> SmallKey(split.value.0, store.room) && SmallId(split.value.1, store.room)
    }

    method InsertRecursive(idx: nat, r: Record, ghost t: Tree, ghost h: nat, ghost lo: real, ghost hi: real,
        ghost nxt: Option<nat>)
      returns (split: Option<(Key, nat)>, ghost kw: seq<Key>, ghost w: seq<Tree>)
      requires order >= 3 && t.id == idx && Below(Ids(t), store.nextPage)
      requires Good(store.pages, t, order, h, lo, hi, nxt) && KeyCount(t) <= MaxKeys(t, order)
      requires lo <= Rank(r.key) < hi
      requires store.Ready() && store.Suits(order) && SmallRecord(r, store.room) && store.Spare(h + 1)
      modifies store, this`size
      ensures old(store.nextPage) <= store.nextPage <= old(store.nextPage) + h + 1
      ensures store.Ready() && SplitSmall(split)
      ensures Inserted(store.pages, t, r, split, kw, w, order, h, lo, hi, nxt, old(store.nextPage), store.nextPage)
      ensures size == if |Put(Flat(t), r)| == |Flat(t)| then SatSub(old(size), 1) else old(size)
      ensures Framed(old(store.pages), store.pages, Ids(t), old(store.nextPage))
      ensures StaysThin(t, w, order)
      decreases h
    {
      hide StaysThin, Thin, Good, GoodForest, FlatOf, Put, FirstLeaf, IdsOf, AllOccupied, LeafPage, Lower, Upper,
        Next, Ids, UpperBound, Flat, Ascending, Within, SortedKeys;
      NodeKind(store.pages, t, order, h, lo, hi, nxt);
      IdsSelf(t);
      var node := store.ReadNode(idx);
      if node.IsLeaf() {
        split, kw, w := InsertIntoLeaf(idx, node, r, t, lo, hi, nxt);
        LeavesThin(t, w, order);
        return;
      }
      var pos := UpperBound(node.keys, r.key);
      Descent(store.pages, t, pos, r.key, order, h, lo, hi, nxt, store.nextPage);
      var childIdx := node.children[pos];
      var childSplit, kc, wc := InsertRecursive(childIdx, r, t.kids[pos], h - 1, Lower(t.keys, lo, pos),
          Upper(t.keys, hi, pos), Next(t.kids, pos, nxt));
      if childSplit.Some? {
        split, kw, w := AbsorbSplit(idx, pos, childSplit.value.0, childSplit.value.1, r, t, kc, wc, h, lo, hi, nxt,
                                    old(store.pages), old(store.nextPage));
        return;
      }
      ForestFacts(store.pages, kc, wc, order, h - 1, Lower(t.keys, lo, pos), Upper(t.keys, hi, pos),
          Next(t.kids, pos, nxt));
      SamePage(node, t, pos, kc, wc);
      ChildInserted(old(store.pages), store.pages, node, t, pos, childSplit, kc, wc, r, order, h, lo, hi, nxt,
                    old(store.nextPage), store.nextPage);
      assert store.pages[idx := node] == store.pages;
      ghost var t' := WithKids(t, pos, pos + 1, kc, wc);
      split, kw, w := None, [], [t'];
      OneTree(store.pages, t', order, h, lo, hi, nxt);
      WholeThin(t, pos, kc, wc, order);
    }

    /** The part of the insert that enters the new separator of a split child into its parent.
        `pages0` and `next0` are the store before the insert entered this subtree. */
    method AbsorbSplit(idx: nat, pos: nat, midKey: Key, newChild: nat, ghost r: Record, ghost t: Tree,
        ghost kc: seq<Key>, ghost wc: seq<Tree>, ghost h: nat, ghost lo: real, ghost hi: real,
        ghost nxt: Option<nat>, ghost pages0: Pages, ghost next0: nat)
      returns (split: Option<(Key, nat)>, ghost kw: seq<Key>, ghost w: seq<Tree>)
      requires order >= 3 && h > 0 && t.Branch? && t.id == idx && pos < |t.kids| == |t.keys| + 1
      requires Good(pages0, t, order, h, lo, hi, nxt) && KeyCount(t) <= MaxKeys(t, order)
      requires lo < hi && idx in pages0 && BranchPage(pages0[idx], t.keys, t.kids) && idx !in Ids(t.kids[pos])
          && idx in Ids(t)
      requires Below(Ids(t), next0) && next0 <= store.nextPage && Ids(t.kids[pos]) <= Ids(t)
      requires Lower(t.keys, lo, pos) <= Rank(r.key) < Upper(t.keys, hi, pos)
      requires Inserted(store.pages, t.kids[pos], r, Some((midKey, newChild)), kc, wc, order, h - 1,
                        Lower(t.keys, lo, pos), Upper(t.keys, hi, pos), Next(t.kids, pos, nxt), next0, store.nextPage)
      requires Framed(pages0, store.pages, Ids(t.kids[pos]), next0) && StaysThin(t.kids[pos], wc, order)
      requires store.Ready() && store.Suits(order) && store.Spare(1) && SplitSmall(Some((midKey, newChild)))
      modifies store
      ensures old(store.nextPage) <= store.nextPage <= old(store.nextPage) + 1
      ensures store.Ready() && SplitSmall(split)
      ensures Inserted(store.pages, t, r, split, kw, w, order, h, lo, hi, nxt, next0, store.nextPage)
      ensures |Put(Flat(t), r)| == |Flat(t)| <==> |Put(Flat(t.kids[pos]), r)| == |Flat(t.kids[pos])|
      ensures Framed(pages0, store.pages, Ids(t), next0)
      ensures StaysThin(t, w, order)
    {
      hide StaysThin, Thin, Good, GoodForest, FlatOf, Put, FirstLeaf, IdsOf, AllOccupied, Lower, Upper, Next, Ids,
        Flat, Small, SmallKey;
      var node := store.ReadNode(idx);
      SmallChild(node, pos, midKey, newChild, store.room);
      node := node.(keys := InsertAt(node.keys, pos, midKey), children := InsertAt(node.children, pos + 1, newChild));
      var full := node.IsFull(order);
      store.WriteSmall(idx, node, order);
      ghost var t' := WithKids(t, pos, pos + 1, kc, wc);
      SplitPage(pages0[idx], node, t, pos, kc, wc);
      ChildInserted(pages0, old(store.pages), node, t, pos, Some((midKey, newChild)), kc, wc, r, order, h, lo, hi, nxt,
          next0, old(store.nextPage));
      assert |node.keys| == |t.keys| + 1;
      KidsThin(t, pos, kc, wc, order);
      if full {
        var key, rid;
        key, rid, w := SplitInternal(idx, t', h, lo, hi, nxt);
        split, kw := Some((key, rid)), [key];
        SplitThin(t, t', idx, rid, order);
      } else {
        split, kw, w := None, [], [t'];
        OneTree(store.pages, t', order, h, lo, hi, nxt);
      }
    }

    method InsertIntoLeaf(idx: nat, node: Node, r: Record, ghost t: Tree, ghost lo: real, ghost hi: real,
        ghost nxt: Option<nat>)
      returns (split: Option<(Key, nat)>, ghost kw: seq<Key>, ghost w: seq<Tree>)
      requires order >= 3 && t.Leaf? && t.id == idx < store.nextPage
      requires Good(store.pages, t, order, 0, lo, hi, nxt) && node == store.pages[idx] && |t.recs| <= order - 2
      requires lo <= Rank(r.key) < hi
      requires store.Ready() && store.Suits(order) && SmallRecord(r, store.room) && store.Spare(1)
      modifies store, this`size
      ensures old(store.nextPage) <= store.nextPage <= old(store.nextPage) + 1
      ensures store.Ready() && SplitSmall(split)
      ensures Inserted(store.pages, t, r, split, kw, w, order, 0, lo, hi, nxt, old(store.nextPage), store.nextPage)
      ensures size == if |Put(Flat(t), r)| == |Flat(t)| then SatSub(old(size), 1) else old(size)
      ensures Framed(old(store.pages), store.pages, Ids(t), old(store.nextPage))
      ensures forall i :: 0 <= i < |w| ==> w[i].Leaf?
    {
      hide Good, GoodForest, Put, Ascending, Within, IdsOf, FlatOf, AllOccupied, Small, SmallKey, SmallRecord,
        PageStore.Valid, PageStore.Ready, PageStore.Suits;
      store.ReadyIsValid();
      NodeKind(store.pages, t, order, 0, lo, hi, nxt);
      var leaf := node;
      var pos := LowerBound(leaf.keys, r.key);
      LeafPut(t.recs, leaf.keys, r, pos, lo, hi);
      LeafWritten(leaf, t.recs, nxt, pos, r);
      if pos < |leaf.keys| && leaf.keys[pos] == r.key {
        SmallSet(leaf, pos, r, store.room);
        leaf := leaf.(records := leaf.records[pos := r]);
        store.WriteSmall(idx, leaf, order);
        size := SatSub(size, 1);
        ghost var t' := Leaf(idx, t.recs[pos := r]);
        split, kw, w := None, [], [t'];
        GoodLeaf(store.pages, t', order, lo, hi, nxt);
        return;
      }
      split, kw, w := PlaceRecord(idx, leaf, pos, r, t, lo, hi, nxt);
    }

    /** The record goes between its neighbours, and the leaf is split if that fills it. */
    method PlaceRecord(idx: nat, node: Node, pos: nat, r: Record, ghost t: Tree, ghost lo: real, ghost hi: real,
        ghost nxt: Option<nat>)
      returns (split: Option<(Key, nat)>, ghost kw: seq<Key>, ghost w: seq<Tree>)
      requires order >= 3 && t.Leaf? && t.id == idx < store.nextPage && idx in store.pages && node == store.pages[idx]
      requires LeafPage(node, t.recs, nxt) && |t.recs| <= order - 2 && pos <= |t.recs| && lo < hi
      requires Put(t.recs, r) == InsertAt(t.recs, pos, r)
      requires Ascending(Put(t.recs, r)) && Within(Put(t.recs, r), lo, hi)
      requires store.Ready() && store.Suits(order) && SmallRecord(r, store.room) && store.Spare(1)
      modifies store
      ensures old(store.nextPage) <= store.nextPage <= old(store.nextPage) + 1
      ensures store.Ready() && SplitSmall(split)
      ensures Inserted(store.pages, t, r, split, kw, w, order, 0, lo, hi, nxt, old(store.nextPage), store.nextPage)
      ensures |Put(Flat(t), r)| == |Flat(t)| + 1
      ensures Framed(old(store.pages), store.pages, Ids(t), old(store.nextPage))
      ensures forall i :: 0 <= i < |w| ==> w[i].Leaf?
    {
      hide Good, GoodForest, Put, Ascending, Within, IdsOf, FlatOf, AllOccupied, Small, SmallKey, SmallRecord,
        PageStore.Valid, PageStore.Ready, PageStore.Suits;
      store.ReadyIsValid();
      var leaf := node;
      LeafWritten(leaf, t.recs, nxt, pos, r);
      SmallPut(leaf, pos, r, store.room);
      leaf := leaf.(keys := InsertAt(leaf.keys, pos, r.key), records := InsertAt(leaf.records, pos, r));
      var full := leaf.IsFull(order);
      store.WriteSmall(idx, leaf, order);
      ghost var t' := Leaf(idx, InsertAt(t.recs, pos, r));
      GoodLeaf(store.pages, t', order, lo, hi, nxt);
      if full {
        var key, rid;
        key, rid, w := SplitLeaf(idx, t', lo, hi, nxt);
        split, kw := Some((key, rid)), [key];
      } else {
        split, kw, w := None, [], [t'];
      }
    }

    // ---------------------------------------------------------------- insert

    method SplitLeaf(idx: nat, ghost t: Tree, ghost lo: real, ghost hi: real, ghost nxt: Option<nat>)
      returns (key: Key, rid: nat, ghost w: seq<Tree>)
      requires order >= 3
      requires t.Leaf? && t.id == idx < store.nextPage
      requires Good(store.pages, t, order, 0, lo, hi, nxt) && |t.recs| == order - 1
      requires store.Ready() && store.Suits(order) && store.Spare(1)
      modifies store
      ensures store.Ready() && SplitSmall(Some((key, rid)))
      ensures w == [Leaf(idx, t.recs[..|t.recs| / 2]), Leaf(rid, t.recs[|t.recs| / 2..])]
      ensures |w| == 2 && w[0].id == idx && w[1].id == rid && w[0].Leaf? && w[1].Leaf?
      ensures GoodForest(store.pages, [key], w, order, 0, lo, hi, nxt) && AllOccupied(w, order)
      ensures FirstLeaf(w[0]) == FirstLeaf(t) && FlatOf(w) == Flat(t)
      ensures store.nextPage == old(store.nextPage) + 1
      ensures Grown(IdsOf(w), Ids(t), old(store.nextPage), store.nextPage)
      ensures Framed(old(store.pages), store.pages, Ids(t), old(store.nextPage))
    {
      hide Small, SmallKey, Good, GoodForest, FlatOf, IdsOf, AllOccupied, Ascending, Within, PageStore.Valid,
        PageStore.Ready, PageStore.Suits;
      store.ReadyIsValid();
      NodeKind(store.pages, t, order, 0, lo, hi, nxt);
      var left := store.ReadNode(idx);
      var mid := |left.keys| / 2;
      var rightKeys, rightRecords := left.keys[mid..], left.records[mid..];
      var oldNext := left.nextLeaf;
      key := rightKeys[0];
      rid := store.AllocPage();
      SmallKeyAt(left, mid, store.room);
      SmallLeafHalves(left, mid, rid, store.room);
      var right := EmptyLeaf().(keys := rightKeys, records := rightRecords, nextLeaf := oldNext);
      left := left.(keys := left.keys[..mid], records := left.records[..mid], nextLeaf := Some(rid));
      store.WriteSmall(idx, left, order);
      store.WriteSmall(rid, right, order);

      w := [Leaf(idx, t.recs[..mid]), Leaf(rid, t.recs[mid..])];
      LeafHalves(old(store.pages), store.pages, t, mid, rid, order, lo, hi, nxt);
    }

    method SplitInternal(idx: nat, ghost t: Tree, ghost h: nat, ghost lo: real, ghost hi: real, ghost nxt: Option<nat>)
      returns (key: Key, rid: nat, ghost w: seq<Tree>)
      requires order >= 3 && h > 0
      requires t.Branch? && t.id == idx && Below(Ids(t), store.nextPage) && |t.kids| == |t.keys| + 1
      requires Good(store.pages, t, order, h, lo, hi, nxt) && order - 1 <= |t.keys| <= MaxKeys(t, order) + 1
      requires store.Ready() && store.Suits(order) && store.Spare(1)
      modifies store
      ensures store.Ready() && SplitSmall(Some((key, rid)))
      ensures w == Halved(t, idx, rid)
      ensures |w| == 2 && w[0].id == idx && w[1].id == rid
      ensures GoodForest(store.pages, [key], w, order, h, lo, hi, nxt) && AllOccupied(w, order)
      ensures FirstLeaf(w[0]) == FirstLeaf(t) && FlatOf(w) == Flat(t)
      ensures store.nextPage == old(store.nextPage) + 1
      ensures Grown(IdsOf(w), Ids(t), old(store.nextPage), store.nextPage)
      ensures Framed(old(store.pages), store.pages, Ids(t), old(store.nextPage))
    {
      hide Small, SmallKey, GoodForest, FlatOf,
        PageStore.Valid, PageStore.Ready, PageStore.Suits;
      store.ReadyIsValid();
      var left := store.ReadNode(idx);
      var mid := |left.keys| / 2;
      SmallKeyAt(left, mid, store.room);
      SmallBranchHalves(left, mid, store.room);
      key := left.keys[mid];
      var rightKeys, rightChildren := left.keys[mid + 1..], left.children[mid + 1..];
      left := left.(keys := left.keys[..mid], children := left.children[..mid + 1]);
      var right := EmptyInternal().(keys := rightKeys, children := rightChildren);
      rid := store.AllocPage();
      store.WriteSmall(idx, left, order);
      store.WriteSmall(rid, right, order);

      ghost var ka, kb, ta, tb := t.keys[..mid], t.keys[mid + 1..], t.kids[..mid + 1], t.kids[mid + 1..];
      w := [Branch(idx, ka, ta), Branch(rid, kb, tb)];
      SplitHalves(old(store.pages), store.pages, t, mid, rid, order, h, lo, hi, nxt);
    }

    // ---------------------------------------------------------------- reading

    /** The leaf that can hold `key`; `a` and `b` are the leaves left and right of it. */
    method FindLeaf(key: Key) returns (idx: nat, ghost leaf: Tree, ghost a: seq<Tree>, ghost b: seq<Tree>)
      requires Valid()
      ensures leaf.Leaf? && idx == leaf.id && Leaves(tree) == a + [leaf] + b
      ensures AllBelow(FlatOf(a), key) && AllAbove(FlatOf(b), key)
    {
      hide Good, GoodForest, FlatOf, SortedKeys, AllOccupied, LeafPage, Ascending, Within, IdsOf, Ids, Lower, Upper,
        Next, UpperBound;
      idx := root;
      ghost var t, h, lo, hi, nxt := tree, height, MIN_RANK, MAX_RANK, None;
      a, b := [], [];
      RankBounds(key);
      NothingThere(key);
      while true
        invariant idx == t.id && Good(store.pages, t, order, h, lo, hi, nxt) && lo <= Rank(key) < hi
        invariant Below(Ids(t), store.nextPage)
        invariant Leaves(tree) == a + Leaves(t) + b && AllBelow(FlatOf(a), key) && AllAbove(FlatOf(b), key)
        decreases h
      {
        NodeKind(store.pages, t, order, h, lo, hi, nxt);
        var node := store.ReadNode(idx);
        if node.IsLeaf() {
          leaf := t;
          return;
        }
        var pos := UpperBound(node.keys, key);
        Descent(store.pages, t, pos, key, order, h, lo, hi, nxt, store.nextPage);
        a, b := PathStep(store.pages, t, pos, key, a, b, Leaves(tree), order, h, lo, hi, nxt);
        idx := node.children[pos];
        t, h, lo, hi, nxt := t.kids[pos], h - 1, Lower(t.keys, lo, pos), Upper(t.keys, hi, pos), Next(t.kids, pos, nxt);
      }
    }

    method FindFirstLeaf() returns (idx: nat)
      requires Valid()
      ensures idx == FirstLeaf(tree)
    {
      hide Good, GoodForest, FlatOf, SortedKeys, AllOccupied, LeafPage, Ascending, Within, IdsOf, Ids, Lower, Upper,
        Next;
      idx := root;
      ghost var t, h, lo, hi, nxt := tree, height, MIN_RANK, MAX_RANK, None;
      while true
        invariant idx == t.id && Good(store.pages, t, order, h, lo, hi, nxt) && FirstLeaf(t) == FirstLeaf(tree)
        decreases h
      {
        NodeKind(store.pages, t, order, h, lo, hi, nxt);
        var node := store.ReadNode(idx);
        if node.IsLeaf() { return; }
        FirstKid(t.id, t.keys, t.kids);
        Member(store.pages, t.keys, t.kids, 0, order, h - 1, lo, hi, nxt);
        idx := node.children[0];
        t, h, lo, hi, nxt := t.kids[0], h - 1, Lower(t.keys, lo, 0), Upper(t.keys, hi, 0), Next(t.kids, 0, nxt);
      }
    }

    method Search(key: Key) returns (value: Option<Bytes>)
      requires Valid()
      ensures value == Lookup(Contents(), key)
      ensures value == if key in Model() then Some(Model()[key]) else None
    {
      hide Good, GoodForest, FlatOf, AllBelow, AllAbove, Distinct, Ids;
      var leafId, leaf, a, b := FindLeaf(key);
      Chain(store.pages, tree, order, height, MIN_RANK, MAX_RANK, None);
      assert LinkedAt(store.pages, Leaves(tree), |a|, None);
      var node := store.ReadNode(leafId);
      value := Lookup(node.records, key);
      FlatAround(a, leaf, b);
      LookupLocal(FlatOf(a), leaf.recs, FlatOf(b), key);
      LookupIsMap(Contents(), key);
    }

    method ScanAll() returns (results: seq<Record>)
      requires Valid()
      ensures results == if size == 0 then [] else Contents()
      ensures size == |Contents()| ==> results == Contents()
      ensures Ascending(results) && NumbersAscend(results)
    {
      hide Good, GoodForest, FlatOf, Distinct, Ids, Ascending, NumbersAscend;
      NoRecords();
      AscendAsNumbers([]);
      if size == 0 {
        return [];
      }
      results := [];
      var idx := FindFirstLeaf();
      ghost var ls, k := Leaves(tree), 0;
      Chain(store.pages, tree, order, height, MIN_RANK, MAX_RANK, None);
      FlatOrdered(store.pages, tree, order, height, MIN_RANK, MAX_RANK, None);
      AscendAsNumbers(Contents());
      FlatNone();
      while true
        invariant k < |ls| && idx == ls[k].id && results == FlatOf(ls[..k])
        decreases |ls| - k
      {
        assert LinkedAt(store.pages, ls, k, None);
        var leaf := store.ReadNode(idx);
        results := results + leaf.records;
        FlatSnoc(ls, k);
        if leaf.nextLeaf.None? {
          assert ls[..k + 1] == ls;
          break;
        }
        idx := leaf.nextLeaf.value;
        k := k + 1;
      }
    }

    method RangeSearch(start: Key, end: Key) returns (results: seq<Record>)
      requires Valid()
      ensures results == Between(Contents(), start, end) && Ascending(results) && NumbersAscend(results)
      ensures forall x :: x in results <==> x in Contents() && AtMost(start, x.key) && AtMost(x.key, end)
      ensures start.Integer? && end.Integer? ==>
        forall x :: x in results <==> x in Contents() && x.key.Integer? && start.v <= x.key.v <= end.v
    {
      hide Good, GoodForest, FlatOf, Distinct, Ids, Ascending, AllBelow, AllAbove, Between, AtMost, Less,
        NumbersAscend;
      if start.Integer? && end.Integer? {
        IntegersBetween(start, end);
      }
      results := [];
      var idx, first, a, b := FindLeaf(start);
      ghost var ls, k := Leaves(tree), |a|;
      Chain(store.pages, tree, order, height, MIN_RANK, MAX_RANK, None);
      FlatOrdered(store.pages, tree, order, height, MIN_RANK, MAX_RANK, None);
      BelowInterval(FlatOf(a), start, end);
      BetweenIsFilter(Contents(), start, end);
      AscendAsNumbers(Between(Contents(), start, end));
      assert ls[..k] == a;
      while true
        invariant k < |ls| && idx == ls[k].id && results == Between(FlatOf(ls[..k]), start, end)
        decreases |ls| - k
      {
        assert LinkedAt(store.pages, ls, k, None);
        var leaf := store.ReadNode(idx);
        var next := leaf.nextLeaf;
        var done;
        FlatSnoc(ls, k);
        results, done := CollectLeaf(leaf.records, start, end, results, FlatOf(ls[..k]), FlatOf(ls[k + 1..]));
        if done {
          return;
        }
        if next.None? {
          assert ls[..k + 1] == ls;
          return;
        }
        idx := next.value;
        k := k + 1;
      }
    }

    /** The inner loop of the range search: the records of one leaf, stopping above `end`.
        `before` and `after` are the records of the leaves left and right of it. */
    method CollectLeaf(records: seq<Record>, start: Key, end: Key, acc: seq<Record>,
                       ghost before: seq<Record>, ghost after: seq<Record>)
      returns (results: seq<Record>, done: bool)
      requires Ascending(before + records + after)
      requires acc == Between(before, start, end)
      ensures !done ==> results == Between(before + records, start, end)
      ensures done ==> results == Between(before + records + after, start, end)
    {
      hide Ascending, Between;
      results, done := acc, false;
      ghost var s := before + records + after;
      assert s[..|before|] == before;
      var j := 0;
      while j < |records|
        invariant j <= |records| && results == Between(s[..|before| + j], start, end) && !done
      {
        var record := records[j];
        assert s[|before| + j] == record;
        BetweenSnoc(s, |before| + j, start, end);
        if AtMost(start, record.key) && AtMost(record.key, end) {
          results := results + [record];
        } else if Less(end, record.key) {
          NothingBeyond(s, |before| + j, start, end);
          done := true;
          return;
        }
        j := j + 1;
      }
      assert s[..|before| + |records|] == before + records;
    }

    // ---------------------------------------------------------------- delete

    /** None is the panic: a child on the search path became too small and has no sibling, or the tree
        held the key while believing that it is empty. */
    method Delete(key: Key) returns (removed: Option<bool>)
      requires Valid()
      modifies this, store
      ensures removed.None? <==> KeysLeft(old(tree), key, order).None? || (key in old(Model()) && old(size) == 0)
      ensures order >= 4 && (key in old(Model()) ==> old(size) > 0) ==> removed.Some?
      ensures removed.Some? ==>
        && Valid() && (removed.value <==> key in old(Model()))
        && tree == Collapsed(TreeWithout(old(tree), key, order))
        && Contents() == Drop(old(Contents()), key) && Model() == old(Model()) - {key}
        && (old(size == |Contents()|) ==> size == |Contents()|)
        && size == (if removed.value then old(size) - 1 else old(size))
        && Ids(tree) <= old(Ids(tree))
      ensures store.nextPage == old(store.nextPage)
      ensures Framed(old(store.pages), store.pages, old(Ids(tree)), store.nextPage)
    {
      hide Good, GoodForest, FlatOf, Drop, Lookup, FirstLeaf, IdsOf, AllOccupied, LeafPage, BranchPage, SortedKeys,
        Ascending, Within, Ids, Flat, KeysLeft, TreeWithout, Repaired;
      RankBounds(key);
      FlatOrdered(store.pages, tree, order, height, MIN_RANK, MAX_RANK, None);
      DropIsMap(Contents(), key);
      LookupIsMap(Contents(), key);
      NeverStuck(store.pages, tree, key, order, height, MIN_RANK, MAX_RANK, None);
      ghost var t';
      removed, t' := DeleteRecursive(root, key, tree, height, MIN_RANK, MAX_RANK, None);
      if removed.None? {
        return;
      }
      tree := t';
      if removed.value {
        if size == 0 {
          return None;
        }
        size := size - 1;
        NodeKind(store.pages, tree, order, height, MIN_RANK, MAX_RANK, None);
        var rootNode := store.ReadNode(root);
        if !rootNode.IsLeaf() && |rootNode.keys| == 0 {
          RootCollapses(store.pages, tree, order, height);
          root := rootNode.children[0];
          tree, height := tree.kids[0], height - 1;
        }
      }
    }

    method DeleteRecursive(idx: nat, key: Key, ghost t: Tree, ghost h: nat, ghost lo: real, ghost hi: real,
        ghost nxt: Option<nat>)
      returns (removed: Option<bool>, ghost t': Tree)
      requires order >= 3 && t.id == idx && Below(Ids(t), store.nextPage)
      requires Good(store.pages, t, order, h, lo, hi, nxt) && lo <= Rank(key) < hi && KeyCount(t) <= MaxKeys(t, order)
      requires store.Ready() && store.Suits(order)
      modifies store`pages, store`nodes, store`raw
      ensures store.Ready()
      ensures removed.None? <==> KeysLeft(t, key, order).None?
      ensures removed.Some? ==>
        && (removed.value <==> Lookup(Flat(t), key).Some?)
        && Deleted(store.pages, t, t', key, order, h, lo, hi, nxt)
        && t' == TreeWithout(t, key, order) && KeyCount(t') == KeysLeft(t, key, order).value
        && (t.Branch? && |t'.keys| == 0 < |t.keys| ==> |t'.kids| == 1 && RootOccupied(t'.kids[0], order))
      ensures removed == Some(false) ==> t' == t && store.pages == old(store.pages)
      ensures Framed(old(store.pages), store.pages, Ids(t), store.nextPage)
      decreases h
    {
      hide Good, GoodForest, FlatOf, Drop, Lookup, FirstLeaf, IdsOf, AllOccupied, LeafPage, Lower, Upper, Next, Ids,
        UpperBound, SortedKeys, Ascending, Within, Flat, KeysLeft, KeysKept, RootOccupied, TreeWithout, Repaired;
      NodeKind(store.pages, t, order, h, lo, hi, nxt);
      IdsSelf(t);
      var node := store.ReadNode(idx);
      if node.IsLeaf() {
        var found;
        found, t' := DeleteFromLeaf(idx, node, key, t, lo, hi, nxt);
        removed := Some(found);
        LeafLeft(t, t', key, order);
        return;
      }
      var pos := UpperBound(node.keys, key);
      Descent(store.pages, t, pos, key, order, h, lo, hi, nxt, store.nextPage);
      BranchLeft(t, key, order);
      BranchWithout(t, key, order);
      var childIdx := node.children[pos];
      LookupInKid(store.pages, t, pos, key, order, h - 1, lo, hi, nxt);
      ghost var c;
      removed, c := DeleteRecursive(childIdx, key, t.kids[pos], h - 1, Lower(t.keys, lo, pos), Upper(t.keys, hi, pos),
          Next(t.kids, pos, nxt));
      if removed.None? {
        t' := t;
        return;
      }
      ghost var p := Branch(t.id, t.keys, t.kids[pos := c]);
      ChildDeleted(old(store.pages), store.pages, t, pos, c, key, order, h, lo, hi, nxt, store.nextPage);
      if !removed.value {
        assert p.kids == t.kids;
        t' := t;
        return;
      }
      SameSiblings(t, pos, c, order);
      var ok;
      ok, t' := FixChild(idx, pos, childIdx, p, h, lo, hi, nxt);
      if !ok {
        removed := None;
      }
    }

    /** The end of a delete on its way up: rebalance the child if it became too small. */
    method FixChild(idx: nat, pos: nat, childIdx: nat, ghost p: Tree, ghost h: nat, ghost lo: real, ghost hi: real,
        ghost nxt: Option<nat>)
      returns (ok: bool, ghost p': Tree)
      requires order >= 3 && p.id == idx && Below(Ids(p), store.nextPage)
      requires Lacking(store.pages, p, pos, order, h, lo, hi, nxt) && |p.keys| <= MaxKeys(p, order)
          && childIdx == p.kids[pos].id
      requires store.Ready() && store.Suits(order)
      modifies store`pages, store`nodes, store`raw
      ensures store.Ready()
      ensures ok <==> KeysKept(p, pos, KeyCount(p.kids[pos]), order).Some?
      ensures ok ==>
        && Rebalanced(store.pages, p, p', order, h, lo, hi, nxt)
        && (KeyCount(p.kids[pos]) < (order - 1) / 2 ==> |p.kids| >= 2)
        && p' == (if KeyCount(p.kids[pos]) < (order - 1) / 2 then Repaired(p, pos, order) else p)
        && |p'.keys| == KeysKept(p, pos, KeyCount(p.kids[pos]), order).value
        && (|p'.keys| == 0 < |p.keys| ==> |p'.kids| == 1 && RootOccupied(p'.kids[0], order))
      ensures Framed(old(store.pages), store.pages, Ids(p), store.nextPage)
    {
      hide Good, GoodForest, FlatOf, FirstLeaf, IdsOf, AllOccupied, LeafPage, Lower, Upper, Next, Ids, Flat,
        Repaired;
      var minKeys := (order - 1) / 2;
      KidPage(store.pages, p, pos, order, h, lo, hi, nxt);
      var child := store.ReadNode(childIdx);
      if |child.keys| < minKeys {
        ok, p' := Rebalance(idx, pos, p, h, lo, hi, nxt);
      } else {
        ok, p' := true, p;
        StillOccupied(store.pages, p, pos, order, h, lo, hi, nxt);
      }
    }

    method DeleteFromLeaf(idx: nat, node: Node, key: Key, ghost t: Tree, ghost lo: real, ghost hi: real,
        ghost nxt: Option<nat>)
      returns (removed: bool, ghost t': Tree)
      requires t.Leaf? && t.id == idx && idx in store.pages && node == store.pages[idx]
      requires Good(store.pages, t, order, 0, lo, hi, nxt) && lo <= Rank(key) < hi && |t.recs| <= order - 2
      requires store.Ready() && store.Suits(order)
      modifies store`pages, store`nodes, store`raw
      ensures store.Ready()
      ensures removed <==> Lookup(Flat(t), key).Some?
      ensures Deleted(store.pages, t, t', key, order, 0, lo, hi, nxt)
      ensures !removed ==> t' == t && store.pages == old(store.pages)
      ensures t' == TreeWithout(t, key, order)
      ensures Framed(old(store.pages), store.pages, Ids(t), store.nextPage)
    {
      hide Good, Drop, Lookup, Ascending, Within, Small, PageStore.Valid, PageStore.Ready,
        PageStore.Suits, TreeWithout, GoodForest, FlatOf, IdsOf,
        AllOccupied, Counted;
      store.ReadyIsValid();
      NodeKind(store.pages, t, order, 0, lo, hi, nxt);
      var leaf := node;
      var pos := Position(leaf.keys, key);
      LeafWithout(t, key, order);
      LeafDrop(t.recs, leaf.keys, key, pos, lo, hi);
      if pos < |leaf.keys| {
        CountedDrop(leaf, pos, order);
        SmallDrop(leaf, pos, store.room);
        leaf := leaf.(keys := RemoveAt(leaf.keys, pos), records := RemoveAt(leaf.records, pos));
        store.WriteSmall(idx, leaf, order);
        t' := Leaf(idx, RemoveAt(t.recs, pos));
        GoodLeaf(store.pages, t', order, lo, hi, nxt);
        removed := true;
      } else {
        t' := t;
        removed := false;
      }
    }

    /** False where the code would go on to merge with child number -1. */
    method Rebalance(parent: nat, pos: nat, ghost p: Tree, ghost h: nat, ghost lo: real, ghost hi: real,
        ghost nxt: Option<nat>)
      returns (ok: bool, ghost p': Tree)
      requires order >= 3 && p.id == parent && Below(Ids(p), store.nextPage)
      requires Lacking(store.pages, p, pos, order, h, lo, hi, nxt) && |p.keys| <= MaxKeys(p, order)
      requires KeyCount(p.kids[pos]) < (order - 1) / 2
      requires store.Ready() && store.Suits(order)
      modifies store`pages, store`nodes, store`raw
      ensures store.Ready()
      ensures ok <==> |p.kids| >= 2
      ensures ok ==>
        && Rebalanced(store.pages, p, p', order, h, lo, hi, nxt) && p' == Repaired(p, pos, order)
        && |p'.keys| == |p.keys| - (if CanLend(p, pos, order) then 0 else 1)
        && (|p'.keys| == 0 < |p.keys| ==> |p'.kids| == 1 && RootOccupied(p'.kids[0], order))
      ensures Framed(old(store.pages), store.pages, Ids(p), store.nextPage)
    {
      hide Good, GoodForest, FlatOf, FirstLeaf, IdsOf, AllOccupied, LeafPage, Ids, Flat, RootOccupied,
        Shifted, MergedAt;
      KidPage(store.pages, p, pos, order, h, lo, hi, nxt);
      var parentNode := store.ReadNode(parent);
      var nChildren := |parentNode.children|;
      var minKeys := (order - 1) / 2;
      ok := true;
      if pos + 1 < nChildren {
        KidPage(store.pages, p, pos + 1, order, h, lo, hi, nxt);
        var rightSib := store.ReadNode(parentNode.children[pos + 1]);
        if |rightSib.keys| > minKeys {
          p' := BorrowFromRight(parent, pos, p, h, lo, hi, nxt);
          return;
        }
      }
      if pos > 0 {
        KidPage(store.pages, p, pos - 1, order, h, lo, hi, nxt);
        var leftSib := store.ReadNode(parentNode.children[pos - 1]);
        if |leftSib.keys| > minKeys {
          p' := BorrowFromLeft(parent, pos, p, h, lo, hi, nxt);
          return;
        }
      }
      if pos + 1 < nChildren {
        p' := Merge(parent, pos, pos, p, h, lo, hi, nxt);
      } else if pos > 0 {
        p' := Merge(parent, pos - 1, pos, p, h, lo, hi, nxt);
      } else {
        ok, p' := false, p;
      }
    }

    method WriteTrio(parent: nat, pn: Node, cid: nat, child: Node, sid: nat, sibling: Node)
      requires store.Ready() && store.Suits(order)
      requires Writable(pn, order, store.room) && Writable(child, order, store.room)
      requires Writable(sibling, order, store.room)
      modifies store`pages, store`nodes, store`raw
      ensures store.Ready() && store.pages == old(store.pages)[parent := pn][cid := child][sid := sibling]
    {
      store.WriteSmall(parent, pn, order);
      store.WriteSmall(cid, child, order);
      store.WriteSmall(sid, sibling, order);
    }

    method BorrowFromRight(parent: nat, pos: nat, ghost p: Tree, ghost h: nat, ghost lo: real, ghost hi: real,
        ghost nxt: Option<nat>)
      returns (ghost p': Tree)
      requires order >= 3 && p.id == parent && Below(Ids(p), store.nextPage)
      requires Lacking(store.pages, p, pos, order, h, lo, hi, nxt) && |p.keys| <= MaxKeys(p, order)
          && pos + 1 < |p.kids|
      requires KeyCount(p.kids[pos]) < (order - 1) / 2 < KeyCount(p.kids[pos + 1])
      requires store.Ready() && store.Suits(order)
      modifies store`pages, store`nodes, store`raw
      ensures store.Ready()
      ensures Rebalanced(store.pages, p, p', order, h, lo, hi, nxt)
      ensures p' == Shifted(p, pos, KeyCount(p.kids[pos]) + 1) && |p'.keys| == |p.keys|
      ensures Framed(old(store.pages), store.pages, Ids(p), store.nextPage)
    {
      hide Good, GoodForest, FlatOf, FirstLeaf, IdsOf, AllOccupied, Ids, Flat, Rebalanced, Lower, Upper, Next,
        Occupied, MinKeys, MaxKeys, LeafPage, BranchPage, Shifted, PageStore.Suits;
      KidPage(store.pages, p, pos, order, h, lo, hi, nxt);
      KidPage(store.pages, p, pos + 1, order, h, lo, hi, nxt);
      var pn := store.ReadNode(parent);
      var child := store.ReadNode(pn.children[pos]);
      if child.IsLeaf() {
        p' := TakeFirstRecord(parent, pos, p, h, lo, hi, nxt);
      } else {
        p' := TakeFirstChild(parent, pos, p, h, lo, hi, nxt);
      }
    }

    method TakeFirstRecord(parent: nat, pos: nat, ghost p: Tree, ghost h: nat, ghost lo: real, ghost hi: real,
        ghost nxt: Option<nat>)
      returns (ghost p': Tree)
      requires order >= 3 && p.id == parent && Below(Ids(p), store.nextPage)
      requires Lacking(store.pages, p, pos, order, h, lo, hi, nxt) && |p.keys| <= MaxKeys(p, order)
          && pos + 1 < |p.kids|
      requires KeyCount(p.kids[pos]) < (order - 1) / 2 < KeyCount(p.kids[pos + 1])
      requires p.kids[pos].Leaf? && p.kids[pos + 1].Leaf?
      requires store.Ready() && store.Suits(order)
      modifies store`pages, store`nodes, store`raw
      ensures store.Ready()
      ensures Rebalanced(store.pages, p, p', order, h, lo, hi, nxt)
      ensures p' == Shifted(p, pos, KeyCount(p.kids[pos]) + 1) && |p'.keys| == |p.keys|
      ensures Framed(old(store.pages), store.pages, Ids(p), store.nextPage)
    {
      hide Good, GoodForest, FlatOf, FirstLeaf, IdsOf, AllOccupied, Ids, Flat, Rebalanced, Lower, Upper, Next,
        Occupied, MinKeys, MaxKeys, LeafPage, BranchPage, Small, Counted, Writable, Trio, Shifted,
        LendingLeaf, PageStore.Valid, PageStore.Ready, PageStore.Suits;
      store.ReadyIsValid();
      ReadLendingLeaf(store, p, pos, pos, order, h, lo, hi, nxt);
      var pn := store.ReadNode(parent);
      var cid, rid := pn.children[pos], pn.children[pos + 1];
      var child := store.ReadNode(cid);
      var right := store.ReadNode(rid);
      LendLeft(pn, child, right, pos, order, store.room);
      var bk, br := right.keys[0], right.records[0];
      right := right.(keys := right.keys[1..], records := right.records[1..]);
      pn := pn.(keys := pn.keys[pos := right.keys[0]]);
      child := child.(keys := child.keys + [bk], records := child.records + [br]);
      WriteTrio(parent, pn, cid, child, rid, right);
      p' := FirstRecordTaken(old(store.pages), store.pages, p, pos, order, h, lo, hi, nxt, store.nextPage);
    }

    method TakeFirstChild(parent: nat, pos: nat, ghost p: Tree, ghost h: nat, ghost lo: real, ghost hi: real,
        ghost nxt: Option<nat>)
      returns (ghost p': Tree)
      requires order >= 3 && p.id == parent && Below(Ids(p), store.nextPage)
      requires Lacking(store.pages, p, pos, order, h, lo, hi, nxt) && |p.keys| <= MaxKeys(p, order)
          && pos + 1 < |p.kids|
      requires KeyCount(p.kids[pos]) < (order - 1) / 2 < KeyCount(p.kids[pos + 1])
      requires p.kids[pos].Branch? && p.kids[pos + 1].Branch?
      requires store.Ready() && store.Suits(order)
      modifies store`pages, store`nodes, store`raw
      ensures store.Ready()
      ensures Rebalanced(store.pages, p, p', order, h, lo, hi, nxt)
      ensures p' == Shifted(p, pos, KeyCount(p.kids[pos]) + 1) && |p'.keys| == |p.keys|
      ensures Framed(old(store.pages), store.pages, Ids(p), store.nextPage)
    {
      hide Good, GoodForest, FlatOf, FirstLeaf, IdsOf, AllOccupied, Ids, Flat, Rebalanced, Lower, Upper, Next,
        Occupied, MinKeys, MaxKeys, LeafPage, BranchPage, Small, Counted, Writable, Trio, Shifted,
        Lending, PageStore.Valid, PageStore.Ready, PageStore.Suits;
      store.ReadyIsValid();
      ReadLending(store, p, pos, pos, order, h, lo, hi, nxt);
      var pn := store.ReadNode(parent);
      var cid, rid := pn.children[pos], pn.children[pos + 1];
      var child := store.ReadNode(cid);
      var right := store.ReadNode(rid);
      LendLeft(pn, child, right, pos, order, store.room);
      var sep, ns, bc := pn.keys[pos], right.keys[0], right.children[0];
      right := right.(keys := right.keys[1..], children := right.children[1..]);
      pn := pn.(keys := pn.keys[pos := ns]);
      child := child.(keys := child.keys + [sep], children := child.children + [bc]);
      WriteTrio(parent, pn, cid, child, rid, right);
      p' := FirstChildTaken(old(store.pages), store.pages, p, pos, order, h, lo, hi, nxt, store.nextPage);
    }

    method BorrowFromLeft(parent: nat, pos: nat, ghost p: Tree, ghost h: nat, ghost lo: real, ghost hi: real,
        ghost nxt: Option<nat>)
      returns (ghost p': Tree)
      requires order >= 3 && p.id == parent && Below(Ids(p), store.nextPage)
      requires Lacking(store.pages, p, pos, order, h, lo, hi, nxt) && |p.keys| <= MaxKeys(p, order)
          && 0 < pos
      requires KeyCount(p.kids[pos]) < (order - 1) / 2 < KeyCount(p.kids[pos - 1])
      requires store.Ready() && store.Suits(order)
      modifies store`pages, store`nodes, store`raw
      ensures store.Ready()
      ensures Rebalanced(store.pages, p, p', order, h, lo, hi, nxt)
      ensures p' == Shifted(p, pos - 1, KeyCount(p.kids[pos - 1]) - 1) && |p'.keys| == |p.keys|
      ensures Framed(old(store.pages), store.pages, Ids(p), store.nextPage)
    {
      hide Good, GoodForest, FlatOf, FirstLeaf, IdsOf, AllOccupied, Ids, Flat, Rebalanced, Lower, Upper, Next,
        Occupied, MinKeys, MaxKeys, LeafPage, BranchPage, Shifted, PageStore.Suits;
      KidPage(store.pages, p, pos, order, h, lo, hi, nxt);
      KidPage(store.pages, p, pos - 1, order, h, lo, hi, nxt);
      var pn := store.ReadNode(parent);
      var child := store.ReadNode(pn.children[pos]);
      if child.IsLeaf() {
        p' := TakeLastRecord(parent, pos, p, h, lo, hi, nxt);
      } else {
        p' := TakeLastChild(parent, pos, p, h, lo, hi, nxt);
      }
    }

    method TakeLastRecord(parent: nat, pos: nat, ghost p: Tree, ghost h: nat, ghost lo: real, ghost hi: real,
        ghost nxt: Option<nat>)
      returns (ghost p': Tree)
      requires order >= 3 && p.id == parent && Below(Ids(p), store.nextPage)
      requires Lacking(store.pages, p, pos, order, h, lo, hi, nxt) && |p.keys| <= MaxKeys(p, order)
          && 0 < pos
      requires KeyCount(p.kids[pos]) < (order - 1) / 2 < KeyCount(p.kids[pos - 1])
      requires p.kids[pos].Leaf? && p.kids[pos - 1].Leaf?
      requires store.Ready() && store.Suits(order)
      modifies store`pages, store`nodes, store`raw
      ensures store.Ready()
      ensures Rebalanced(store.pages, p, p', order, h, lo, hi, nxt)
      ensures p' == Shifted(p, pos - 1, KeyCount(p.kids[pos - 1]) - 1) && |p'.keys| == |p.keys|
      ensures Framed(old(store.pages), store.pages, Ids(p), store.nextPage)
    {
      hide Good, GoodForest, FlatOf, FirstLeaf, IdsOf, AllOccupied, Ids, Flat, Rebalanced, Lower, Upper, Next,
        Occupied, MinKeys, MaxKeys, LeafPage, BranchPage, Small, Counted, Writable, Trio, Shifted,
        LendingLeaf, PageStore.Valid, PageStore.Ready, PageStore.Suits;
      store.ReadyIsValid();
      ReadLendingLeaf(store, p, pos, pos - 1, order, h, lo, hi, nxt);
      var pn := store.ReadNode(parent);
      var cid, lid := pn.children[pos], pn.children[pos - 1];
      var child := store.ReadNode(cid);
      var left := store.ReadNode(lid);
      var last := |left.keys| - 1;
      LendRight(pn, left, child, pos - 1, order, store.room);
      var lk, lr := left.keys[last], left.records[last];
      left := left.(keys := left.keys[..last], records := left.records[..last]);
      pn := pn.(keys := pn.keys[pos - 1 := lk]);
      child := child.(keys := [lk] + child.keys, records := [lr] + child.records);
      WriteTrio(parent, pn, cid, child, lid, left);
      p' := LastRecordTaken(old(store.pages), store.pages, p, pos, order, h, lo, hi, nxt, store.nextPage);
    }

    method TakeLastChild(parent: nat, pos: nat, ghost p: Tree, ghost h: nat, ghost lo: real, ghost hi: real,
        ghost nxt: Option<nat>)
      returns (ghost p': Tree)
      requires order >= 3 && p.id == parent && Below(Ids(p), store.nextPage)
      requires Lacking(store.pages, p, pos, order, h, lo, hi, nxt) && |p.keys| <= MaxKeys(p, order)
          && 0 < pos
      requires KeyCount(p.kids[pos]) < (order - 1) / 2 < KeyCount(p.kids[pos - 1])
      requires p.kids[pos].Branch? && p.kids[pos - 1].Branch?
      requires store.Ready() && store.Suits(order)
      modifies store`pages, store`nodes, store`raw
      ensures store.Ready()
      ensures Rebalanced(store.pages, p, p', order, h, lo, hi, nxt)
      ensures p' == Shifted(p, pos - 1, KeyCount(p.kids[pos - 1]) - 1) && |p'.keys| == |p.keys|
      ensures Framed(old(store.pages), store.pages, Ids(p), store.nextPage)
    {
      hide Good, GoodForest, FlatOf, FirstLeaf, IdsOf, AllOccupied, Ids, Flat, Rebalanced, Lower, Upper, Next,
        Occupied, MinKeys, MaxKeys, LeafPage, BranchPage, Small, Counted, Writable, Trio, Shifted,
        Lending, PageStore.Valid, PageStore.Ready, PageStore.Suits;
      store.ReadyIsValid();
      ReadLending(store, p, pos, pos - 1, order, h, lo, hi, nxt);
      var pn := store.ReadNode(parent);
      var cid, lid := pn.children[pos], pn.children[pos - 1];
      var child := store.ReadNode(cid);
      var left := store.ReadNode(lid);
      var last := |left.keys| - 1;
      LendRight(pn, left, child, pos - 1, order, store.room);
      var sep, ns, bc := pn.keys[pos - 1], left.keys[last], left.children[last + 1];
      left := left.(keys := left.keys[..last], children := left.children[..last + 1]);
      pn := pn.(keys := pn.keys[pos - 1 := ns]);
      child := child.(keys := [sep] + child.keys, children := [bc] + child.children);
      WriteTrio(parent, pn, cid, child, lid, left);
      p' := LastChildTaken(old(store.pages), store.pages, p, pos, order, h, lo, hi, nxt, store.nextPage);
    }

    method Merge(parent: nat, leftPos: nat, ghost pos: nat, ghost p: Tree, ghost h: nat, ghost lo: real,
        ghost hi: real, ghost nxt: Option<nat>)
      returns (ghost p': Tree)
      requires order >= 3 && p.id == parent && Below(Ids(p), store.nextPage)
      requires Lacking(store.pages, p, pos, order, h, lo, hi, nxt) && |p.keys| <= MaxKeys(p, order)
          && leftPos + 1 < |p.kids|
      requires pos == leftPos || pos == leftPos + 1
      requires KeyCount(p.kids[leftPos]) + KeyCount(p.kids[leftPos + 1]) < (order - 1) / 2 * 2
      requires store.Ready() && store.Suits(order)
      modifies store`pages, store`nodes, store`raw
      ensures store.Ready()
      ensures Rebalanced(store.pages, p, p', order, h, lo, hi, nxt)
      ensures p' == MergedAt(p, leftPos) && p'.Branch? && |p'.keys| == |p.keys| - 1
      ensures |p'.keys| == 0 ==> |p'.kids| == 1 && RootOccupied(p'.kids[0], order)
      ensures Framed(old(store.pages), store.pages, Ids(p), store.nextPage)
    {
      hide Good, GoodForest, FlatOf, FirstLeaf, IdsOf, AllOccupied, Ids, Flat, Rebalanced, Lower, Upper, Next,
        Occupied, MinKeys, Small, Counted, Writable, Trio,
        PageStore.Valid, PageStore.Ready, PageStore.Suits;
      store.ReadyIsValid();
      KidPage(store.pages, p, leftPos, order, h, lo, hi, nxt);
      KidPage(store.pages, p, leftPos + 1, order, h, lo, hi, nxt);
      var pn := store.ReadNode(parent);
      var lid, rid := pn.children[leftPos], pn.children[leftPos + 1];
      var left := store.ReadNode(lid);
      var right := store.ReadNode(rid);
      ReadTrio(store, p, pos, leftPos, order, h, lo, hi, nxt);
      Joined(pn, left, right, leftPos, order, store.room);
      if left.IsLeaf() {
        left := left.(keys := left.keys + right.keys, records := left.records + right.records,
            nextLeaf := right.nextLeaf);
      } else {
        var sep := pn.keys[leftPos];
        left := left.(keys := left.keys + [sep] + right.keys, children := left.children + right.children);
      }
      pn := pn.(keys := RemoveAt(pn.keys, leftPos), children := RemoveAt(pn.children, leftPos + 1));
      store.WriteSmall(lid, left, order);
      store.WriteSmall(parent, pn, order);
      p' := MergedKids(old(store.pages), store.pages, p, leftPos, pos, order, h, lo, hi, nxt, store.nextPage);
    }
  }

  /** What rebalancing reads: the branch and the children on both sides of its separator `i`. */
  lemma {:induction false} ReadTrio(store: PageStore, p: Tree, pos: nat, i: nat, n: nat, h: nat, lo: real, hi: real,
      nxt: Option<nat>)
    requires n >= 3 && store.Ready() && Lacking(store.pages, p, pos, n, h, lo, hi, nxt) && |p.keys| <= MaxKeys(p, n)
    requires i + 1 < |p.kids| && (pos == i || pos == i + 1)
    ensures p.id in store.pages && p.kids[i].id in store.pages && p.kids[i + 1].id in store.pages
    ensures Trio(store.pages[p.id], store.pages[p.kids[i].id], store.pages[p.kids[i + 1].id], i, n, store.room)
    ensures forall j :: i <= j <= i + 1 ==>
      && |store.pages[p.kids[j].id].keys| == KeyCount(p.kids[j])
      && KeyCount(p.kids[j]) <= (if p.kids[j].Leaf? then n - 2 else BranchMax(n) - 1)
      && (store.pages[p.kids[j].id].IsLeaf() <==> p.kids[j].Leaf?)
  {
    hide GoodForest, IdsOf, Small;
    KidPage(store.pages, p, i, n, h, lo, hi, nxt);
    KidPage(store.pages, p, i + 1, n, h, lo, hi, nxt);
  }

  /** The same with what borrowing a child asks for. */
  lemma {:induction false} ReadLending(store: PageStore, p: Tree, pos: nat, i: nat, n: nat, h: nat, lo: real, hi: real,
      nxt: Option<nat>)
    requires n >= 3 && store.Ready() && Lacking(store.pages, p, pos, n, h, lo, hi, nxt) && |p.keys| <= MaxKeys(p, n)
    requires p.Branch? && i + 1 < |p.kids| && (pos == i || pos == i + 1)
    requires p.kids[i].Branch? && p.kids[i + 1].Branch?
    requires KeyCount(p.kids[pos]) < (n - 1) / 2 < KeyCount(p.kids[if pos == i then i + 1 else i])
    ensures ReadPair(store, p, i, n) && Lending(store.pages, p, pos, i, n, h, lo, hi, nxt)
    ensures !store.pages[p.kids[i].id].IsLeaf() && !store.pages[p.kids[i + 1].id].IsLeaf()
    ensures |store.pages[p.kids[pos].id].keys| < (n - 1) / 2
    ensures (n - 1) / 2 < |store.pages[p.kids[if pos == i then i + 1 else i].id].keys| <= BranchMax(n) - 1
  {
    hide Good, GoodForest, IdsOf, Small, Trio;
    KidPage(store.pages, p, i, n, h, lo, hi, nxt);
    KidPage(store.pages, p, i + 1, n, h, lo, hi, nxt);
    ReadTrio(store, p, pos, i, n, h, lo, hi, nxt);
    TrioSizes(store, p, i, n);
  }

  lemma {:induction false} ReadLendingLeaf(store: PageStore, p: Tree, pos: nat, i: nat, n: nat, h: nat, lo: real,
      hi: real,
      nxt: Option<nat>)
    requires n >= 3 && store.Ready() && Lacking(store.pages, p, pos, n, h, lo, hi, nxt) && |p.keys| <= MaxKeys(p, n)
    requires p.Branch? && i + 1 < |p.kids| && (pos == i || pos == i + 1)
    requires p.kids[i].Leaf? && p.kids[i + 1].Leaf?
    requires KeyCount(p.kids[pos]) < (n - 1) / 2 < KeyCount(p.kids[if pos == i then i + 1 else i])
    ensures ReadPair(store, p, i, n) && LendingLeaf(store.pages, p, pos, i, n, h, lo, hi, nxt)
    ensures store.pages[p.kids[i].id].IsLeaf() && store.pages[p.kids[i + 1].id].IsLeaf()
    ensures |store.pages[p.kids[pos].id].keys| < (n - 1) / 2
    ensures (n - 1) / 2 < |store.pages[p.kids[if pos == i then i + 1 else i].id].keys| <= n - 2
  {
    hide Good, GoodForest, IdsOf, Small, Trio;
    KidPage(store.pages, p, i, n, h, lo, hi, nxt);
    KidPage(store.pages, p, i + 1, n, h, lo, hi, nxt);
    ReadTrio(store, p, pos, i, n, h, lo, hi, nxt);
    TrioSizes(store, p, i, n);
  }

  /** The pages of the branch and its two children, and how they hang together. */
  ghost predicate ReadPair(store: PageStore, p: Tree, i: nat, n: nat)
    reads store
  {
    && p.Branch? && i + 1 < |p.kids|
    && p.id in store.pages && p.kids[i].id in store.pages && p.kids[i + 1].id in store.pages
    && Trio(store.pages[p.id], store.pages[p.kids[i].id], store.pages[p.kids[i + 1].id], i, n, store.room)
    && i + 1 < |store.pages[p.id].children| && i < |store.pages[p.id].keys|
    && store.pages[p.id].children[i] == p.kids[i].id && store.pages[p.id].children[i + 1] == p.kids[i + 1].id
    && (store.pages[p.kids[i].id].IsLeaf() ==>
        && |store.pages[p.kids[i].id].records| == |store.pages[p.kids[i].id].keys|
        && |store.pages[p.kids[i + 1].id].records| == |store.pages[p.kids[i + 1].id].keys|)
    && (!store.pages[p.kids[i].id].IsLeaf() ==>
        && |store.pages[p.kids[i].id].children| == |store.pages[p.kids[i].id].keys| + 1
        && |store.pages[p.kids[i + 1].id].children| == |store.pages[p.kids[i + 1].id].keys| + 1)
  }

  lemma {:induction false} TrioSizes(store: PageStore, p: Tree, i: nat, n: nat)
    requires p.Branch? && i + 1 < |p.kids|
    requires p.id in store.pages && p.kids[i].id in store.pages && p.kids[i + 1].id in store.pages
    requires Trio(store.pages[p.id], store.pages[p.kids[i].id], store.pages[p.kids[i + 1].id], i, n, store.room)
    ensures i + 1 < |store.pages[p.id].children| && i < |store.pages[p.id].keys|
    ensures var l, r := store.pages[p.kids[i].id], store.pages[p.kids[i + 1].id];
      && (l.IsLeaf() ==> |l.records| == |l.keys| && |r.records| == |r.keys|)
      && (!l.IsLeaf() ==> |l.children| == |l.keys| + 1 && |r.children| == |r.keys| + 1)
  {
    hide Small;
  }
}
