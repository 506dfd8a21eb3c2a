/** The shape that pages of one tree form, and the algebra of forests on which
    every split, borrow and merge rests. */
module Trees {
  import opened Keys
  import opened Records

  datatype NodeType = InternalNode | LeafNode

  /** One page: as in the source, one record type serves both kinds of node. */
  datatype Node = Node(nodeType: NodeType, keys: seq<Key>, children: seq<nat>,
                       records: seq<Record>, nextLeaf: Option<nat>) {
    predicate IsLeaf() { nodeType == LeafNode }

    predicate IsFull(order: nat) { |keys| >= order - 1 }
  }

  /** The tree that a set of linked pages stands for. */
  datatype Tree =
    | Leaf(id: nat, recs: seq<Record>)
    | Branch(id: nat, keys: seq<Key>, kids: seq<Tree>)

  type Pages = map<nat, Node>

  // ------------------------------------------------------------------
  // What a tree owns, holds and links to.
  // ------------------------------------------------------------------

  ghost function Ids(t: Tree): set<nat> {
    match t
    case Leaf(id, _) => {id}
    case Branch(id, _, kids) => {id} + IdsOf(kids)
  }

  ghost function IdsOf(ts: seq<Tree>): set<nat> {
    set i, x | 0 <= i < |ts| && x in Ids(ts[i]) :: x
  }

  ghost function Flat(t: Tree): seq<Record> {
    match t
    case Leaf(_, recs) => recs
    case Branch(_, _, kids) => FlatOf(kids)
  }

  ghost function FlatOf(ts: seq<Tree>): seq<Record> {
    if ts == [] then [] else Flat(ts[0]) + FlatOf(ts[1..])
  }

  ghost function FirstLeaf(t: Tree): nat {
    if t.Leaf? || t.kids == [] then t.id else FirstLeaf(t.kids[0])
  }

  /** The page the last leaf of `ts[i]` must link to. */
  ghost function Next(ts: seq<Tree>, i: nat, nxt: Option<nat>): Option<nat> {
    if i + 1 < |ts| then Some(FirstLeaf(ts[i + 1])) else nxt
  }

  // ------------------------------------------------------------------
  // Occupancy.  `n` is the order.
  // ------------------------------------------------------------------

  ghost function KeyCount(t: Tree): nat {
    if t.Leaf? then |t.recs| else |t.keys|
  }

  ghost function MinKeys(t: Tree, n: nat): int {
    if t.Leaf? then (n - 1) / 2 else n - 2 - (n - 1) / 2
  }

  ghost function MaxKeys(t: Tree, n: nat): int {
    if t.Leaf? then n - 2 else (n - 1) / 2 * 2
  }

  ghost predicate Occupied(t: Tree, n: nat) {
    MinKeys(t, n) <= KeyCount(t) <= MaxKeys(t, n)
  }

  ghost predicate AllOccupied(ts: seq<Tree>, n: nat) {
    forall i :: 0 <= i < |ts| ==> Occupied(ts[i], n)
  }

  // ------------------------------------------------------------------
  // Representation: the pages hold the tree, it is ordered and balanced.
  // ------------------------------------------------------------------

  ghost predicate LeafPage(p: Node, recs: seq<Record>, nxt: Option<nat>) {
    && p.nodeType == LeafNode && p.records == recs && p.nextLeaf == nxt && p.children == []
    && |p.keys| == |recs| && forall i :: 0 <= i < |recs| ==> p.keys[i] == recs[i].key
  }

  ghost predicate BranchPage(p: Node, keys: seq<Key>, kids: seq<Tree>) {
    && p.nodeType == InternalNode && p.records == [] && p.keys == keys && p.nextLeaf == None
    && |p.children| == |kids| && forall i :: 0 <= i < |kids| ==> p.children[i] == kids[i].id
  }

  ghost predicate SortedKeys(ks: seq<Key>, lo: real, hi: real) {
    && lo < hi
    && (forall i, j :: 0 <= i < j < |ks| ==> Rank(ks[i]) < Rank(ks[j]))
    && (forall i :: 0 <= i < |ks| ==> lo < Rank(ks[i]) < hi)
  }

  ghost function Lower(ks: seq<Key>, lo: real, i: nat): real
    requires i <= |ks|
  {
    if i == 0 then lo else Rank(ks[i - 1])
  }

  ghost function Upper(ks: seq<Key>, hi: real, i: nat): real
    requires i <= |ks|
  {
    if i == |ks| then hi else Rank(ks[i])
  }

  /** `pages` hold `t`: a tree of height `h`, all keys in [lo, hi), whose last leaf
      links to `nxt`; every node below the root is within its occupancy bounds. */
  ghost predicate Good(pages: Pages, t: Tree, n: nat, h: nat, lo: real, hi: real, nxt: Option<nat>)
    decreases h, 0
  {
    && t.id in pages
    && match t
       case Leaf(id, recs) =>
         h == 0 && LeafPage(pages[id], recs, nxt) && Ascending(recs) && Within(recs, lo, hi)
       case Branch(id, keys, kids) =>
         && h > 0 && BranchPage(pages[id], keys, kids)
         && id !in IdsOf(kids) && AllOccupied(kids, n)
         && GoodForest(pages, keys, kids, n, h - 1, lo, hi, nxt)
  }

  /** Neighbouring trees of one height with separators between them, on disjoint pages. */
  ghost predicate GoodForest(pages: Pages, ks: seq<Key>, ts: seq<Tree>, n: nat, h: nat,
                             lo: real, hi: real, nxt: Option<nat>)
    decreases h, 2
  {
    && |ts| == |ks| + 1
    && SortedKeys(ks, lo, hi)
    && Disjoint(ts)
    && forall i :: 0 <= i < |ts| ==> GoodAt(pages, ks, ts, i, n, h, lo, hi, nxt)
  }

  /** Tree number `i` of a forest lies between its separators and links to its neighbour. */
  ghost predicate GoodAt(pages: Pages, ks: seq<Key>, ts: seq<Tree>, i: nat, n: nat, h: nat,
                         lo: real, hi: real, nxt: Option<nat>)
    requires |ts| == |ks| + 1 && i < |ts|
    decreases h, 1
  {
    Good(pages, ts[i], n, h, Lower(ks, lo, i), Upper(ks, hi, i), Next(ts, i, nxt))
  }

  ghost predicate Disjoint(ts: seq<Tree>) {
    forall i, j :: 0 <= i < j < |ts| ==> Ids(ts[i]) !! Ids(ts[j])
  }

  ghost predicate SamePages(pages: Pages, pages': Pages, own: set<nat>) {
    forall p :: p in own && p in pages ==> p in pages' && pages'[p] == pages[p]
  }

  // ------------------------------------------------------------------
  // Framing.
  // ------------------------------------------------------------------

  lemma {:induction false} IdsSelf(t: Tree)
    ensures t.id in Ids(t)
    ensures t.Branch? ==> Ids(t) == {t.id} + IdsOf(t.kids)
  {
  }

  lemma {:induction false} FirstKid(id: nat, ks: seq<Key>, ts: seq<Tree>)
    requires ts != []
    ensures FirstLeaf(Branch(id, ks, ts)) == FirstLeaf(ts[0])
  {
  }

  lemma {:induction false} ForestFacts(pages: Pages, ks: seq<Key>, ts: seq<Tree>, n: nat, h: nat,
                                       lo: real, hi: real, nxt: Option<nat>)
    requires GoodForest(pages, ks, ts, n, h, lo, hi, nxt)
    ensures |ts| == |ks| + 1 && SortedKeys(ks, lo, hi) && Disjoint(ts)
  {
    hide Good, GoodAt, SortedKeys, Disjoint;
  }

  lemma {:induction false} IdsHave(ts: seq<Tree>, i: nat)
    requires i < |ts|
    ensures Ids(ts[i]) <= IdsOf(ts) && ts[i].id in IdsOf(ts)
  {
    assert ts[i].id in Ids(ts[i]);
  }

  lemma {:induction false} IdsConcat(a: seq<Tree>, b: seq<Tree>)
    ensures IdsOf(a + b) == IdsOf(a) + IdsOf(b)
  {
    forall x
      ensures x in IdsOf(a + b) <==> x in IdsOf(a) + IdsOf(b)
    {
      if x in IdsOf(a + b) {
        var i :| 0 <= i < |a + b| && x in Ids((a + b)[i]);
        if i < |a| { IdsHave(a, i); } else { IdsHave(b, i - |a|); }
      }
      if x in IdsOf(a) {
        var i :| 0 <= i < |a| && x in Ids(a[i]);
        assert (a + b)[i] == a[i];
        IdsHave(a + b, i);
      }
      if x in IdsOf(b) {
        var i :| 0 <= i < |b| && x in Ids(b[i]);
        assert (a + b)[|a| + i] == b[i];
        IdsHave(a + b, |a| + i);
      }
    }
  }

  /** A tree whose own pages are untouched is untouched. */
  lemma {:induction false} GoodFrame(pages: Pages, pages': Pages, t: Tree, n: nat, h: nat,
                                     lo: real, hi: real, nxt: Option<nat>)
    requires Good(pages, t, n, h, lo, hi, nxt) && SamePages(pages, pages', Ids(t))
    ensures Good(pages', t, n, h, lo, hi, nxt)
    decreases h, 0
  {
    hide GoodForest, IdsOf, Ascending, Within, LeafPage, BranchPage;
    if t.Branch? {
      ForestFrame(pages, pages', t.keys, t.kids, n, h - 1, lo, hi, nxt);
    }
  }

  lemma {:induction false} ForestFrame(pages: Pages, pages': Pages, ks: seq<Key>, ts: seq<Tree>, n: nat, h: nat,
                                       lo: real, hi: real, nxt: Option<nat>)
    requires GoodForest(pages, ks, ts, n, h, lo, hi, nxt) && SamePages(pages, pages', IdsOf(ts))
    ensures GoodForest(pages', ks, ts, n, h, lo, hi, nxt)
    decreases h, 1
  {
    hide Good, SortedKeys, Disjoint, Next, Lower, Upper, IdsOf, Ids;
    forall i | 0 <= i < |ts|
      ensures GoodAt(pages', ks, ts, i, n, h, lo, hi, nxt)
    {
      assert GoodAt(pages, ks, ts, i, n, h, lo, hi, nxt);
      IdsHave(ts, i);
      GoodFrame(pages, pages', ts[i], n, h, Lower(ks, lo, i), Upper(ks, hi, i), Next(ts, i, nxt));
    }
  }

  lemma {:induction false} IdsStored(pages: Pages, t: Tree, n: nat, h: nat, lo: real, hi: real, nxt: Option<nat>)
    requires Good(pages, t, n, h, lo, hi, nxt)
    ensures Ids(t) <= pages.Keys
    decreases h
  {
    if t.Branch? {
      forall i | 0 <= i < |t.kids|
        ensures Ids(t.kids[i]) <= pages.Keys
      {
        assert GoodAt(pages, t.keys, t.kids, i, n, h - 1, lo, hi, nxt);
        IdsStored(pages, t.kids[i], n, h - 1, Lower(t.keys, lo, i), Upper(t.keys, hi, i), Next(t.kids, i, nxt));
      }
    }
  }

  // ------------------------------------------------------------------
  // Cutting a forest in two and joining two forests.
  // ------------------------------------------------------------------

  lemma {:induction false} Cut(pages: Pages, ka: seq<Key>, s: Key, kb: seq<Key>, a: seq<Tree>, b: seq<Tree>,
            n: nat, h: nat, lo: real, hi: real, nxt: Option<nat>)
    requires |a| == |ka| + 1 && |b| == |kb| + 1
    requires GoodForest(pages, ka + [s] + kb, a + b, n, h, lo, hi, nxt)
    ensures GoodForest(pages, ka, a, n, h, lo, Rank(s), Some(FirstLeaf(b[0])))
    ensures GoodForest(pages, kb, b, n, h, Rank(s), hi, nxt)
    ensures IdsOf(a) !! IdsOf(b)
  {
    hide Good, FirstLeaf, Disjoint, IdsOf, SortedKeys;
    var ks, ts := ka + [s] + kb, a + b;
    CutKeys(ka, s, kb, lo, hi);
    CutDisjoint(a, b);
    forall i | 0 <= i < |a|
      ensures GoodAt(pages, ka, a, i, n, h, lo, Rank(s), Some(FirstLeaf(b[0])))
    {
      assert GoodAt(pages, ks, ts, i, n, h, lo, hi, nxt);
    }
    forall i | 0 <= i < |b|
      ensures GoodAt(pages, kb, b, i, n, h, Rank(s), hi, nxt)
    {
      assert GoodAt(pages, ks, ts, |a| + i, n, h, lo, hi, nxt);
    }
  }

  lemma {:induction false} CutKeys(ka: seq<Key>, s: Key, kb: seq<Key>, lo: real, hi: real)
    ensures SortedKeys(ka + [s] + kb, lo, hi) <==> SortedKeys(ka, lo, Rank(s)) && SortedKeys(kb, Rank(s), hi)
  {
    var ks := ka + [s] + kb;
    assert ks[|ka|] == s;
    assert forall i :: 0 <= i < |ka| ==> ks[i] == ka[i];
    if SortedKeys(ks, lo, hi) {
      forall i | 0 <= i < |kb|
        ensures Rank(s) < Rank(kb[i]) < hi
      {
        assert ks[|ka| + 1 + i] == kb[i];
      }
      forall i, j | 0 <= i < j < |kb|
        ensures Rank(kb[i]) < Rank(kb[j])
      {
        assert ks[|ka| + 1 + i] == kb[i] && ks[|ka| + 1 + j] == kb[j];
      }
    }
  }

  lemma {:induction false} CutDisjoint(a: seq<Tree>, b: seq<Tree>)
    requires Disjoint(a + b)
    ensures Disjoint(a) && Disjoint(b) && IdsOf(a) !! IdsOf(b)
  {
    var ts := a + b;
    assert forall i :: 0 <= i < |a| ==> ts[i] == a[i];
    assert forall i :: 0 <= i < |b| ==> ts[|a| + i] == b[i];
    forall i, j | 0 <= i < |a| && 0 <= j < |b|
      ensures Ids(a[i]) !! Ids(b[j])
    {
      assert Ids(ts[i]) !! Ids(ts[|a| + j]);
    }
  }

  lemma {:induction false} JoinDisjoint(a: seq<Tree>, b: seq<Tree>)
    requires Disjoint(a) && Disjoint(b) && IdsOf(a) !! IdsOf(b)
    ensures Disjoint(a + b)
  {
    var ts := a + b;
    forall i, j | 0 <= i < j < |ts|
      ensures Ids(ts[i]) !! Ids(ts[j])
    {
      if i < |a| { IdsHave(a, i); }
      if j >= |a| { IdsHave(b, j - |a|); }
    }
  }

  lemma {:induction false} Join(pages: Pages, ka: seq<Key>, s: Key, kb: seq<Key>, a: seq<Tree>, b: seq<Tree>,
             n: nat, h: nat, lo: real, hi: real, nxt: Option<nat>)
    requires |b| > 0
    requires GoodForest(pages, ka, a, n, h, lo, Rank(s), Some(FirstLeaf(b[0])))
    requires GoodForest(pages, kb, b, n, h, Rank(s), hi, nxt)
    requires IdsOf(a) !! IdsOf(b)
    ensures GoodForest(pages, ka + [s] + kb, a + b, n, h, lo, hi, nxt)
  {
    hide Good, FirstLeaf, Disjoint, IdsOf, SortedKeys;
    var ks, ts := ka + [s] + kb, a + b;
    CutKeys(ka, s, kb, lo, hi);
    JoinDisjoint(a, b);
    forall i | 0 <= i < |ts|
      ensures GoodAt(pages, ks, ts, i, n, h, lo, hi, nxt)
    {
      if i < |a| {
        assert GoodAt(pages, ka, a, i, n, h, lo, Rank(s), Some(FirstLeaf(b[0])));
      } else {
        assert GoodAt(pages, kb, b, i - |a|, n, h, Rank(s), hi, nxt);
      }
    }
  }

  // ------------------------------------------------------------------
  // Replacing a window of neighbouring trees.
  // ------------------------------------------------------------------

  /** `ts` with the trees i .. j-1 replaced by `w`. */
  ghost function Spliced<T>(ts: seq<T>, i: nat, j: nat, w: seq<T>): seq<T>
    requires i <= j <= |ts|
  {
    ts[..i] + w + ts[j..]
  }

  lemma {:induction false} SpliceForest(pages: Pages, pages': Pages, ks: seq<Key>, ts: seq<Tree>, i: nat, j: nat,
                     kw: seq<Key>, w: seq<Tree>, n: nat, h: nat, lo: real, hi: real, nxt: Option<nat>)
    requires i < j <= |ts|
    requires GoodForest(pages, ks, ts, n, h, lo, hi, nxt)
    requires GoodForest(pages', kw, w, n, h, Lower(ks, lo, i), Upper(ks, hi, j - 1), Next(ts, j - 1, nxt))
    requires FirstLeaf(w[0]) == FirstLeaf(ts[i])
    requires IdsOf(w) !! IdsOf(ts[..i]) && IdsOf(w) !! IdsOf(ts[j..])
    requires SamePages(pages, pages', IdsOf(ts[..i])) && SamePages(pages, pages', IdsOf(ts[j..]))
    ensures GoodForest(pages', Spliced(ks, i, j - 1, kw), Spliced(ts, i, j, w), n, h, lo, hi, nxt)
  {
    hide Good, FirstLeaf, Disjoint, IdsOf, SortedKeys, GoodAt, Spliced;
    var ks', ts' := Spliced(ks, i, j - 1, kw), Spliced(ts, i, j, w);
    SpliceKeys(ks, i, j - 1, kw, lo, hi);
    SpliceDisjoint(ts, i, j, w);
    assert IdsOf(w) !! IdsOf(ts[..i]) && IdsOf(w) !! IdsOf(ts[j..]);
    assert |ts'| == |ks'| + 1 == i + |w| + (|ts| - j) by { SplicedSize(ks, i, j - 1, kw); SplicedSize(ts, i, j, w); }
    forall k | 0 <= k < |ts'|
      ensures GoodAt(pages', ks', ts', k, n, h, lo, hi, nxt)
    {
      if k < i {
        assert GoodAt(pages, ks, ts, k, n, h, lo, hi, nxt);
        SpliceLeft(pages, pages', ks, ts, i, j, kw, w, k, n, h, lo, hi, nxt);
      } else if k < i + |w| {
        assert GoodAt(pages', kw, w, k - i, n, h, Lower(ks, lo, i), Upper(ks, hi, j - 1), Next(ts, j - 1, nxt));
        SpliceMiddle(pages', ks, ts, i, j, kw, w, k, n, h, lo, hi, nxt);
      } else {
        assert GoodAt(pages, ks, ts, k - i - |w| + j, n, h, lo, hi, nxt);
        SpliceRight(pages, pages', ks, ts, i, j, kw, w, k, n, h, lo, hi, nxt);
      }
    }
  }

  lemma {:induction false} SplicedSize<T>(ts: seq<T>, i: nat, j: nat, w: seq<T>)
    requires i <= j <= |ts|
    ensures |Spliced(ts, i, j, w)| == i + |w| + (|ts| - j)
  {
  }

  lemma {:induction false} SpliceKeys(ks: seq<Key>, i: nat, j: nat, kw: seq<Key>, lo: real, hi: real)
    requires i <= j <= |ks| && SortedKeys(ks, lo, hi) && SortedKeys(kw, Lower(ks, lo, i), Upper(ks, hi, j))
    ensures SortedKeys(Spliced(ks, i, j, kw), lo, hi)
  {
    var r := Spliced(ks, i, j, kw);
    forall x | 0 <= x < |r|
      ensures lo < Rank(r[x]) < hi
    {
      assert r[x] == if x < i then ks[x] else if x < i + |kw| then kw[x - i] else ks[x - i - |kw| + j];
    }
    forall x, y | 0 <= x < y < |r|
      ensures Rank(r[x]) < Rank(r[y])
    {
      assert r[x] == if x < i then ks[x] else if x < i + |kw| then kw[x - i] else ks[x - i - |kw| + j];
      assert r[y] == if y < i then ks[y] else if y < i + |kw| then kw[y - i] else ks[y - i - |kw| + j];
    }
  }

  lemma {:induction false} SpliceDisjoint(ts: seq<Tree>, i: nat, j: nat, w: seq<Tree>)
    requires i <= j <= |ts| && Disjoint(ts) && Disjoint(w)
    requires IdsOf(w) !! IdsOf(ts[..i]) && IdsOf(w) !! IdsOf(ts[j..])
    ensures Disjoint(Spliced(ts, i, j, w))
  {
    assert ts == ts[..i] + ts[i..] && ts == ts[..j] + ts[j..];
    CutDisjoint(ts[..j], ts[j..]);
    CutDisjoint(ts[..i], ts[i..]);
    JoinDisjoint(ts[..i], w);
    IdsConcat(ts[..i], w);
    assert IdsOf(ts[..i]) <= IdsOf(ts[..j]) by {
      assert ts[..j] == ts[..i] + ts[i..j];
      IdsConcat(ts[..i], ts[i..j]);
    }
    JoinDisjoint(ts[..i] + w, ts[j..]);
  }

  lemma {:induction false} SpliceLeft(pages: Pages, pages': Pages, ks: seq<Key>, ts: seq<Tree>, i: nat, j: nat,
                   kw: seq<Key>, w: seq<Tree>, k: nat, n: nat, h: nat, lo: real, hi: real, nxt: Option<nat>)
    requires k < i < j <= |ts| == |ks| + 1 && |w| == |kw| + 1
    requires GoodAt(pages, ks, ts, k, n, h, lo, hi, nxt)
    requires FirstLeaf(w[0]) == FirstLeaf(ts[i]) && SamePages(pages, pages', IdsOf(ts[..i]))
    ensures GoodAt(pages', Spliced(ks, i, j - 1, kw), Spliced(ts, i, j, w), k, n, h, lo, hi, nxt)
  {
    hide Good, FirstLeaf, IdsOf;
    IdsHave(ts[..i], k);
    GoodFrame(pages, pages', ts[k], n, h, Lower(ks, lo, k), Upper(ks, hi, k), Next(ts, k, nxt));
  }

  lemma {:induction false} SpliceMiddle(pages': Pages, ks: seq<Key>, ts: seq<Tree>, i: nat, j: nat,
                     kw: seq<Key>, w: seq<Tree>, k: nat, n: nat, h: nat, lo: real, hi: real, nxt: Option<nat>)
    requires i < j <= |ts| == |ks| + 1 && |w| == |kw| + 1 && i <= k < i + |w|
    requires GoodAt(pages', kw, w, k - i, n, h, Lower(ks, lo, i), Upper(ks, hi, j - 1), Next(ts, j - 1, nxt))
    ensures GoodAt(pages', Spliced(ks, i, j - 1, kw), Spliced(ts, i, j, w), k, n, h, lo, hi, nxt)
  {
    hide Good, FirstLeaf;
  }

  lemma {:induction false} SpliceRight(pages: Pages, pages': Pages, ks: seq<Key>, ts: seq<Tree>, i: nat, j: nat,
                    kw: seq<Key>, w: seq<Tree>, k: nat, n: nat, h: nat, lo: real, hi: real, nxt: Option<nat>)
    requires i < j <= |ts| == |ks| + 1 && |w| == |kw| + 1 && i + |w| <= k < i + |w| + |ts| - j
    requires GoodAt(pages, ks, ts, k - i - |w| + j, n, h, lo, hi, nxt)
    requires SamePages(pages, pages', IdsOf(ts[j..]))
    ensures GoodAt(pages', Spliced(ks, i, j - 1, kw), Spliced(ts, i, j, w), k, n, h, lo, hi, nxt)
  {
    hide Good, FirstLeaf, IdsOf;
    var q := k - i - |w| + j;
    assert ts[j..][q - j] == ts[q];
    IdsHave(ts[j..], q - j);
    GoodFrame(pages, pages', ts[q], n, h, Lower(ks, lo, q), Upper(ks, hi, q), Next(ts, q, nxt));
  }

  // ------------------------------------------------------------------
  // Contents.
  // ------------------------------------------------------------------

  lemma {:induction false} FlatConcat(a: seq<Tree>, b: seq<Tree>)
    ensures FlatOf(a + b) == FlatOf(a) + FlatOf(b)
  {
    if a == [] {
      assert a + b == b;
    } else {
      assert (a + b)[1..] == a[1..] + b;
      FlatConcat(a[1..], b);
    }
  }

  lemma {:induction false} FlatSplice(ts: seq<Tree>, i: nat, j: nat, w: seq<Tree>)
    requires i <= j <= |ts|
    ensures FlatOf(Spliced(ts, i, j, w)) == FlatOf(ts[..i]) + FlatOf(w) + FlatOf(ts[j..])
  {
    FlatConcat(ts[..i] + w, ts[j..]);
    FlatConcat(ts[..i], w);
  }

  lemma {:induction false} FlatOne(t: Tree)
    ensures FlatOf([t]) == Flat(t)
  {
    assert FlatOf([t]) == Flat(t) + FlatOf([]);
  }

  lemma {:induction false} FlatTwo(t: Tree, u: Tree)
    ensures FlatOf([t, u]) == Flat(t) + Flat(u)
  {
    assert [t, u] == [t] + [u];
    FlatConcat([t], [u]);
    FlatOne(t);
    FlatOne(u);
  }

  lemma {:induction false} SplitAround(ts: seq<Tree>, i: nat)
    requires i < |ts|
    ensures FlatOf(ts) == FlatOf(ts[..i]) + Flat(ts[i]) + FlatOf(ts[i + 1..])
  {
    FlatSplice(ts, i, i + 1, [ts[i]]);
    assert Spliced(ts, i, i + 1, [ts[i]]) == ts;
    FlatOne(ts[i]);
  }

  /** The contents of a tree are in strictly ascending key order and inside its bounds. */
  lemma {:induction false} FlatOrdered(pages: Pages, t: Tree, n: nat, h: nat, lo: real, hi: real, nxt: Option<nat>)
    requires Good(pages, t, n, h, lo, hi, nxt)
    ensures Ascending(Flat(t)) && Within(Flat(t), lo, hi)
    decreases h, 0, 0
  {
    hide GoodForest, FlatOf, IdsOf, LeafPage, BranchPage, AllOccupied, Ascending, Within;
    if t.Branch? {
      ForestOrdered(pages, t.keys, t.kids, n, h - 1, lo, hi, nxt);
    }
  }

  lemma {:induction false} ForestOrdered(pages: Pages, ks: seq<Key>, ts: seq<Tree>, n: nat, h: nat,
                                         lo: real, hi: real, nxt: Option<nat>)
    requires GoodForest(pages, ks, ts, n, h, lo, hi, nxt)
    ensures Ascending(FlatOf(ts)) && Within(FlatOf(ts), lo, hi)
    decreases h, 1, |ts|
  {
    if |ts| == 1 {
      assert GoodAt(pages, ks, ts, 0, n, h, lo, hi, nxt);
      FlatOrdered(pages, ts[0], n, h, lo, hi, nxt);
      assert ts == [ts[0]];
      FlatOne(ts[0]);
    } else {
      assert ks == [] + [ks[0]] + ks[1..] && ts == ts[..1] + ts[1..];
      Cut(pages, [], ks[0], ks[1..], ts[..1], ts[1..], n, h, lo, hi, nxt);
      ForestOrdered(pages, [], ts[..1], n, h, lo, Rank(ks[0]), Some(FirstLeaf(ts[1])));
      ForestOrdered(pages, ks[1..], ts[1..], n, h, Rank(ks[0]), hi, nxt);
      FlatConcat(ts[..1], ts[1..]);
    }
  }

  /** What lies left of child i is below its bounds, what lies right is above. */
  lemma {:induction false} Sides(pages: Pages, ks: seq<Key>, ts: seq<Tree>, i: nat, k: Key, n: nat, h: nat,
              lo: real, hi: real, nxt: Option<nat>)
    requires GoodForest(pages, ks, ts, n, h, lo, hi, nxt) && i < |ts|
    requires Lower(ks, lo, i) <= Rank(k) < Upper(ks, hi, i)
    ensures AllBelow(FlatOf(ts[..i]), k) && AllAbove(FlatOf(ts[i + 1..]), k)
  {
    hide GoodForest, FlatOf, SortedKeys, Disjoint;
    ForestFacts(pages, ks, ts, n, h, lo, hi, nxt);
    if i > 0 {
      assert ks == ks[..i - 1] + [ks[i - 1]] + ks[i..] && ts == ts[..i] + ts[i..];
      Cut(pages, ks[..i - 1], ks[i - 1], ks[i..], ts[..i], ts[i..], n, h, lo, hi, nxt);
      ForestOrdered(pages, ks[..i - 1], ts[..i], n, h, lo, Rank(ks[i - 1]), Some(FirstLeaf(ts[i])));
    } else {
      assert FlatOf(ts[..i]) == [] by { FlatNone(); }
    }
    if i + 1 < |ts| {
      assert ks == ks[..i] + [ks[i]] + ks[i + 1..] && ts == ts[..i + 1] + ts[i + 1..];
      Cut(pages, ks[..i], ks[i], ks[i + 1..], ts[..i + 1], ts[i + 1..], n, h, lo, hi, nxt);
      ForestOrdered(pages, ks[i + 1..], ts[i + 1..], n, h, Rank(ks[i]), hi, nxt);
    } else {
      assert FlatOf(ts[i + 1..]) == [] by { FlatNone(); }
    }
  }

  lemma {:induction false} FlatNone()
    ensures FlatOf([]) == []
  {
  }
}
