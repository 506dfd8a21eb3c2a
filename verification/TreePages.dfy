/** A tree over pages of bytes: which bound on keys and values is exact, what happens beyond it, and
    that a tree survives being written to pages and read back (src/btree/tree.rs, src/pager/codec.rs). */
module TreePages {
  import opened Keys
  import opened Records
  import opened Wire
  import opened Trees
  import opened TreeSteps
  import opened TreeScan
  import opened NodeSizes
  import opened Storage
  import opened BPlusTrees
  import opened Codec

  /** Every record and separator of the tree is within the limits. */
  ghost predicate Sized(t: Tree, l: Limits) {
    match t
    case Leaf(_, recs) => forall i :: 0 <= i < |recs| ==> RecordSized(recs[i], l)
    case Branch(_, keys, kids) =>
      && (forall i :: 0 <= i < |keys| ==> KeySized(keys[i], l))
      && forall i :: 0 <= i < |kids| ==> Sized(kids[i], l)
  }

  /** Enough for the nodes that a tree of order `n` consists of between two operations. */
  predicate SettledBound(n: nat, l: Limits) {
    && 3 <= n < 0x1_0000_0000 && l.keyBytes < 0x1_0000_0000 && l.valueBytes < 0x1_0000_0000
    && 9 + (n - 2) * (l.keyBytes + 4 + l.valueBytes) <= PAGE_SIZE
    && 9 + (n - 1) * (l.keyBytes + 4) + 4 <= PAGE_SIZE
  }

  ghost predicate AllFit(pages: Pages, ids: set<nat>) {
    forall id :: id in ids ==> id in pages && Fits(pages[id])
  }

  /** A leaf's page fits. */
  lemma {:induction false} LeafFits(p: Node, recs: seq<Record>, nxt: Option<nat>, n: nat, l: Limits)
    requires LeafPage(p, recs, nxt) && |recs| <= n - 2 && SettledBound(n, l)
    requires forall i :: 0 <= i < |recs| ==> RecordSized(recs[i], l)
    requires nxt.Some? ==> nxt.value < NONE_PAGE
    ensures Fits(p)
  {
    hide Fits, KeyBytes;
    forall i | 0 <= i < |recs|
      ensures KeySized(p.keys[i], l)
    {
      assert RecordSized(recs[i], l);
    }
    ShortFits(p, n - 2, l);
  }

  /** A branch's page fits. */
  lemma {:induction false} BranchFits(p: Node, keys: seq<Key>, kids: seq<Tree>, n: nat, l: Limits)
    requires BranchPage(p, keys, kids) && |kids| == |keys| + 1 && |keys| <= n - 1 && SettledBound(n, l)
    requires forall i :: 0 <= i < |keys| ==> KeySized(keys[i], l)
    requires forall i :: 0 <= i < |kids| ==> kids[i].id < NONE_PAGE
    ensures Fits(p)
  {
    hide Fits, KeyBytes;
    ShortFits(p, n - 1, l);
  }

  /** Between two operations every page of a well-formed tree within the limits fits. */
  lemma {:induction false} TreeFits(pages: Pages, t: Tree, n: nat, h: nat, lo: real, hi: real, nxt: Option<nat>,
      l: Limits)
    requires Good(pages, t, n, h, lo, hi, nxt) && KeyCount(t) <= MaxKeys(t, n)
    requires Sized(t, l) && SettledBound(n, l)
    requires Below(Ids(t), NONE_PAGE) && (nxt.Some? ==> nxt.value < NONE_PAGE)
    ensures AllFit(pages, Ids(t))
    decreases h
  {
    hide Good, GoodForest, IdsOf, LeafPage, BranchPage, SettledBound, Fits, RecordSized, KeySized;
    NodeKind(pages, t, n, h, lo, hi, nxt);
    if t.Leaf? {
      LeafFits(pages[t.id], t.recs, nxt, n, l);
    } else {
      forall i | 0 <= i < |t.kids|
        ensures AllFit(pages, Ids(t.kids[i])) && t.kids[i].id < NONE_PAGE
      {
        KidBelow(t, i);
        Member(pages, t.keys, t.kids, i, n, h - 1, lo, hi, nxt);
        assert Occupied(t.kids[i], n);
        NextBelow(t, i, nxt);
        TreeFits(pages, t.kids[i], n, h - 1, Lower(t.keys, lo, i), Upper(t.keys, hi, i), Next(t.kids, i, nxt), l);
      }
      BranchFits(pages[t.id], t.keys, t.kids, n, l);
      KidsFit(pages, t);
    }
  }

  lemma {:induction false} KidBelow(t: Tree, i: nat)
    requires t.Branch? && i < |t.kids| && Below(Ids(t), NONE_PAGE)
    ensures Below(Ids(t.kids[i]), NONE_PAGE) && t.kids[i].id < NONE_PAGE && FirstLeaf(t.kids[i]) < NONE_PAGE
  {
    hide Ids, IdsOf;
    IdsSelf(t);
    IdsHave(t.kids, i);
    IdsSelf(t.kids[i]);
    FirstLeafOwn(t.kids[i]);
  }

  lemma {:induction false} FirstLeafOwn(t: Tree)
    ensures FirstLeaf(t) in Ids(t)
  {
    hide IdsOf;
    if t.Branch? && t.kids != [] {
      FirstLeafOwn(t.kids[0]);
      IdsHave(t.kids, 0);
    }
  }

  lemma {:induction false} NextBelow(t: Tree, i: nat, nxt: Option<nat>)
    requires t.Branch? && i < |t.kids| && Below(Ids(t), NONE_PAGE) && (nxt.Some? ==> nxt.value < NONE_PAGE)
    ensures Next(t.kids, i, nxt).Some? ==> Next(t.kids, i, nxt).value < NONE_PAGE
  {
    hide Ids, FirstLeaf;
    if i + 1 < |t.kids| {
      KidBelow(t, i + 1);
    }
  }

  lemma {:induction false} KidsFit(pages: Pages, t: Tree)
    requires t.Branch? && t.id in pages && Fits(pages[t.id])
    requires forall i :: 0 <= i < |t.kids| ==> AllFit(pages, Ids(t.kids[i]))
    ensures AllFit(pages, Ids(t))
  {
    hide Fits;
  }

  // ------------------------------------------------------------------
  // The bound is exact where keys are integers.
  // ------------------------------------------------------------------

  function Value(bytes: nat): (v: Bytes)
    ensures |v| == bytes
  {
    seq(bytes, _ => 0)
  }

  /** Records with the keys 0, 1, and so on, and values of one length. */
  function Numbered(m: nat, bytes: nat): (rs: seq<Record>)
    requires m < 0x1_0000_0000
    ensures |rs| == m
  {
    seq(m, i requires 0 <= i < m => Record(Integer(i), Value(bytes)))
  }

  function Numbers(m: nat): (ks: seq<Key>)
    requires m < 0x1_0000_0000
    ensures |ks| == m
  {
    seq(m, i requires 0 <= i < m => Integer(i))
  }

  /** The leaf that is written when a leaf of the greatest legal size gains a record, and split next. */
  function FullLeaf(n: nat, bytes: nat): Node
    requires 3 <= n < 0x8000_0000
  {
    Node(LeafNode, Numbers(n - 1), [], Numbered(n - 1, bytes), None)
  }

  /** The same for a branch. */
  function FullBranch(n: nat): Node
    requires 3 <= n < 0x8000_0000
  {
    Node(InternalNode, Numbers(BranchMax(n)), seq(BranchMax(n) + 1, i requires 0 <= i => i), [], None)
  }

  /** Putting the last record makes of the leaf of the others the full leaf. */
  lemma {:induction false} LastPut(leaf: Node, n: nat, bytes: nat)
    requires 3 <= n < 0x8000_0000 && LeafPage(leaf, Numbered(n - 2, bytes), None)
    ensures var r := Record(Integer(n - 2), Value(bytes));
      leaf.(keys := InsertAt(leaf.keys, n - 2, r.key), records := InsertAt(leaf.records, n - 2, r))
          == FullLeaf(n, bytes)
    ensures FullLeaf(n, bytes).IsFull(n)
  {
  }

  lemma {:induction false} IntegersLength(ks: seq<Key>)
    requires forall i :: 0 <= i < |ks| ==> ks[i].Integer?
    ensures |KeysBytes(ks)| == 9 * |ks|
  {
    if ks != [] {
      IntegersLength(ks[1..]);
    }
  }

  lemma {:induction false} EqualValues(rs: seq<Record>, bytes: nat)
    requires bytes < 0x1_0000_0000 && forall i :: 0 <= i < |rs| ==> |rs[i].value| == bytes
    ensures |ValuesBytes(rs)| == |rs| * (4 + bytes)
  {
    hide PutBytes;
    if rs != [] {
      EqualValues(rs[1..], bytes);
      PutLength(rs[0].value);
      var each := 4 + bytes;
      assert |rs| * each == (|rs| - 1) * each + each;
    }
  }

  lemma {:induction false} FullLeafLength(n: nat, bytes: nat)
    requires 3 <= n < 0x8000_0000 && bytes < 0x1_0000_0000
    ensures WellFormed(FullLeaf(n, bytes))
    ensures |NodeBytes(FullLeaf(n, bytes))| == 9 + (n - 1) * (9 + 4 + bytes)
  {
    hide KeysBytes, ValuesBytes, Head;
    IntegersLength(Numbers(n - 1));
    var rs := Numbered(n - 1, bytes);
    assert forall i :: 0 <= i < |rs| ==> rs[i].value == Value(bytes);
    EqualValues(rs, bytes);
    Product(n - 1, n - 1, 9, 4 + bytes);
  }

  lemma {:induction false} FullBranchLength(n: nat)
    requires 3 <= n < 0x8000_0000
    ensures WellFormed(FullBranch(n))
    ensures |NodeBytes(FullBranch(n))| == 9 + BranchMax(n) * (9 + 4) + 4
  {
    hide KeysBytes, ChildrenBytes, Head;
    IntegersLength(Numbers(BranchMax(n)));
    ChildrenLength(FullBranch(n).children);
  }

  /** With integer keys and values of up to so many bytes, the bound holds if and only if the greatest
      nodes that are ever written read back; then, by `NodeFits`, all others do. */
  lemma {:induction false} IntegerBound(n: nat, bytes: nat)
    requires 3 <= n < 0x8000_0000 && bytes < 0x1_0000_0000
    ensures PageBound(n, Limits(9, bytes)) <==> Fits(FullLeaf(n, bytes)) && Fits(FullBranch(n))
    ensures PageBound(n, Limits(9, bytes)) <==>
      && Decoded(Resized(NodeBytes(FullLeaf(n, bytes)))) == Some(FullLeaf(n, bytes))
      && Decoded(Resized(NodeBytes(FullBranch(n)))) == Some(FullBranch(n))
  {
    hide NodeBytes, WellFormed, Decoded, Resized, FullLeaf, FullBranch;
    FullLeafLength(n, bytes);
    FullBranchLength(n);
    PageRoundTrip(FullLeaf(n, bytes));
    PageRoundTrip(FullBranch(n));
  }

  /** Order 64, integer keys, values of 52 bytes: every page of a settled tree fits, and the leaf that
      the 63rd insert writes and then reads back to split it is cut off. */
  method CutOff() returns (store: PageStore)
    ensures SettledBound(64, Limits(9, 52)) && !PageBound(64, Limits(9, 52))
    ensures |NodeBytes(FullLeaf(64, 52))| == 4104
    ensures store.file && !(0 in store.pages && store.pages[0] == FullLeaf(64, 52))
  {
    hide NodeBytes, WellFormed, Decoded, Resized, FullLeaf;
    FullLeafLength(64, 52);
    store := new PageStore.OnFile(Limits(9, 52));
    store.WriteNode(0, FullLeaf(64, 52));
  }

  // ------------------------------------------------------------------
  // Writing a tree to pages and reading it back.
  // ------------------------------------------------------------------

  /** A tree whose pages fit is, on the pages read back, the same tree. */
  lemma {:induction false} TreeSurvives(pages: Pages, raw: map<nat, Bytes>, t: Tree, n: nat, h: nat)
    requires Good(pages, t, n, h, MIN_RANK, MAX_RANK, None) && AllFit(pages, Ids(t))
    requires forall id :: id in Ids(t) ==> id in raw && raw[id] == Resized(NodeBytes(pages[id]))
    ensures Good(ReadBack(raw), t, n, h, MIN_RANK, MAX_RANK, None)
  {
    hide Good, Ids, Decoded, NodeBytes, WellFormed;
    forall id | id in Ids(t)
      ensures id in ReadBack(raw) && ReadBack(raw)[id] == pages[id]
    {
      PageRoundTrip(pages[id]);
    }
    GoodFrame(pages, ReadBack(raw), t, n, h, MIN_RANK, MAX_RANK, None);
  }

  /** Opening a tree again from the bytes of its file, in a new store: the same contents, ready for
      every operation. */
  method Reopen(tree: BPlusTree) returns (again: BPlusTree)
    requires tree.Valid() && tree.store.file
    ensures fresh(again) && fresh(again.store) && again.Valid()
    ensures again.store.file && again.store.raw == tree.store.raw && again.store.nextPage == tree.store.nextPage
    ensures again.order == tree.order && again.size == tree.size
    ensures again.Contents() == tree.Contents() && again.Model() == tree.Model()
  {
    hide Good, Ids, Decoded, Flat, ToMap, Formed, PageBound;
    var store := new PageStore.Reopened(tree.store.raw, tree.store.nextPage, tree.store.room.value);
    again := new BPlusTree.Open(tree.order, store, tree.root, tree.size, tree.tree, tree.height);
  }
}
