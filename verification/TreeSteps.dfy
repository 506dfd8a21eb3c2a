/** What each structural step of an insert or a delete does to the tree it touches. */
module TreeSteps {
  import opened Keys
  import opened Records
  import opened Trees

  /** All pages of the set were allocated before page number `next`. */
  ghost predicate Below(ids: set<nat>, next: nat) {
    forall x :: x in ids ==> x < next
  }

  /** Only pages of `own` and pages numbered from `next` may have changed. */
  ghost predicate Framed(pages: Pages, pages': Pages, own: set<nat>, next: nat) {
    forall x :: x in pages && x !in own && x < next ==> x in pages' && pages'[x] == pages[x]
  }

  /** `ids'` adds to `ids` nothing but pages allocated between `next` and `next'`. */
  ghost predicate Grown(ids': set<nat>, ids: set<nat>, next: nat, next': nat) {
    forall x :: x in ids' ==> x in ids || next <= x < next'
  }

  // ------------------------------------------------------------------
  // Forests of one and of two trees.
  // ------------------------------------------------------------------

  lemma {:induction false} OneTree(pages: Pages, t: Tree, n: nat, h: nat, lo: real, hi: real, nxt: Option<nat>)
    requires Good(pages, t, n, h, lo, hi, nxt) && lo < hi
    ensures GoodForest(pages, [], [t], n, h, lo, hi, nxt)
    ensures IdsOf([t]) == Ids(t) && FlatOf([t]) == Flat(t)
  {
    hide Good, IdsOf;
    assert GoodAt(pages, [], [t], 0, n, h, lo, hi, nxt);
    OneTreeIds(t);
    FlatOne(t);
  }

  lemma {:induction false} OneTreeIds(t: Tree)
    ensures IdsOf([t]) == Ids(t)
  {
    hide Ids;
    assert [t][0] == t;
  }

  lemma {:induction false} TwoTreeIds(c: Tree, r: Tree)
    ensures IdsOf([c, r]) == Ids(c) + Ids(r)
  {
    hide Ids, IdsOf;
    OneTreeIds(c);
    OneTreeIds(r);
    assert [c, r] == [c] + [r];
    IdsConcat([c], [r]);
  }

  lemma {:induction false} TwoTrees(pages: Pages, s: Key, c: Tree, r: Tree, n: nat, h: nat, lo: real, hi: real,
      nxt: Option<nat>)
    requires lo < Rank(s) < hi
    requires Good(pages, c, n, h, lo, Rank(s), Some(FirstLeaf(r))) && Good(pages, r, n, h, Rank(s), hi, nxt)
    requires Ids(c) !! Ids(r)
    ensures GoodForest(pages, [s], [c, r], n, h, lo, hi, nxt)
    ensures IdsOf([c, r]) == Ids(c) + Ids(r) && FlatOf([c, r]) == Flat(c) + Flat(r)
  {
    hide Good, IdsOf, FirstLeaf, Ids;
    TwoTreeIds(c, r);
    FlatTwo(c, r);
    var ts := [c, r];
    assert GoodAt(pages, [s], ts, 0, n, h, lo, hi, nxt) && GoodAt(pages, [s], ts, 1, n, h, lo, hi, nxt);
    forall i | 0 <= i < |ts|
      ensures GoodAt(pages, [s], ts, i, n, h, lo, hi, nxt)
    {
      assert i == 0 || i == 1;
    }
  }

  /** Two neighbours taken out of a forest. */
  lemma {:induction false} Neighbours(pages: Pages, ks: seq<Key>, ts: seq<Tree>, i: nat, n: nat, h: nat, lo: real,
      hi: real, nxt: Option<nat>)
    requires GoodForest(pages, ks, ts, n, h, lo, hi, nxt) && i + 1 < |ts|
    ensures Good(pages, ts[i], n, h, Lower(ks, lo, i), Rank(ks[i]), Some(FirstLeaf(ts[i + 1])))
    ensures Good(pages, ts[i + 1], n, h, Rank(ks[i]), Upper(ks, hi, i + 1), Next(ts, i + 1, nxt))
    ensures Lower(ks, lo, i) < Rank(ks[i]) < Upper(ks, hi, i + 1)
    ensures Ids(ts[i]) !! Ids(ts[i + 1])
    ensures IdsOf(ts[i..i + 2]) == Ids(ts[i]) + Ids(ts[i + 1])
    ensures FlatOf(ts[i..i + 2]) == Flat(ts[i]) + Flat(ts[i + 1])
  {
    hide Good, IdsOf, FirstLeaf, Ids;
    assert GoodAt(pages, ks, ts, i, n, h, lo, hi, nxt) && GoodAt(pages, ks, ts, i + 1, n, h, lo, hi, nxt);
    assert ts[i..i + 2] == [ts[i], ts[i + 1]];
    TwoTreeIds(ts[i], ts[i + 1]);
    FlatTwo(ts[i], ts[i + 1]);
  }

  /** One tree taken out of a forest. */
  lemma {:induction false} Member(pages: Pages, ks: seq<Key>, ts: seq<Tree>, i: nat, n: nat, h: nat, lo: real,
      hi: real, nxt: Option<nat>)
    requires GoodForest(pages, ks, ts, n, h, lo, hi, nxt) && i < |ts|
    ensures Good(pages, ts[i], n, h, Lower(ks, lo, i), Upper(ks, hi, i), Next(ts, i, nxt))
    ensures Lower(ks, lo, i) < Upper(ks, hi, i)
    ensures IdsOf(ts[i..i + 1]) == Ids(ts[i])
  {
    hide Good, IdsOf, FirstLeaf, Ids;
    assert GoodAt(pages, ks, ts, i, n, h, lo, hi, nxt);
    assert ts[i..i + 1] == [ts[i]];
    OneTreeIds(ts[i]);
  }

  // ------------------------------------------------------------------
  // Replacing children i .. j-1 of a branch by `w`, separators `kw` between them.
  // ------------------------------------------------------------------

  ghost function WithKids(p: Tree, i: nat, j: nat, kw: seq<Key>, w: seq<Tree>): Tree
    requires p.Branch? && |p.kids| == |p.keys| + 1 && i < j <= |p.kids|
  {
    Branch(p.id, Spliced(p.keys, i, j - 1, kw), Spliced(p.kids, i, j, w))
  }

  lemma {:induction false} KidsReplaced(pages: Pages, pages': Pages, p: Tree, i: nat, j: nat, kw: seq<Key>,
      w: seq<Tree>,
                     n: nat, h: nat, lo: real, hi: real, nxt: Option<nat>, next: nat, next': nat)
    requires p.Branch? && GoodForest(pages, p.keys, p.kids, n, h, lo, hi, nxt) && i < j <= |p.kids|
    requires p.id !in IdsOf(p.kids) && Below(Ids(p), next)
    requires GoodForest(pages', kw, w, n, h, Lower(p.keys, lo, i), Upper(p.keys, hi, j - 1), Next(p.kids, j - 1, nxt))
    requires FirstLeaf(w[0]) == FirstLeaf(p.kids[i])
    requires Framed(pages, pages', IdsOf(p.kids[i..j]) + {p.id}, next)
    requires Grown(IdsOf(w), IdsOf(p.kids[i..j]), next, next')
    ensures var p' := WithKids(p, i, j, kw, w);
      && GoodForest(pages', p'.keys, p'.kids, n, h, lo, hi, nxt)
      && p'.id !in IdsOf(p'.kids) && FirstLeaf(p') == FirstLeaf(p)
      && Grown(Ids(p'), Ids(p), next, next')
  {
    hide Good, FirstLeaf, GoodForest;
    var ts := p.kids;
    KidSets(ts, i, j);
    ForestFacts(pages, p.keys, ts, n, h, lo, hi, nxt);
    ForestFacts(pages', kw, w, n, h, Lower(p.keys, lo, i), Upper(p.keys, hi, j - 1), Next(p.kids, j - 1, nxt));
    ForestStored(pages, p.keys, ts, n, h, lo, hi, nxt);
    KidSetsDisjoint(ts, i, j);
    SpliceForest(pages, pages', p.keys, ts, i, j, kw, w, n, h, lo, hi, nxt);
    IdsConcat(ts[..i] + w, ts[j..]);
    IdsConcat(ts[..i], w);
    FirstOfSpliced(p, i, j, kw, w);
  }

  lemma {:induction false} FirstOfSpliced(p: Tree, i: nat, j: nat, kw: seq<Key>, w: seq<Tree>)
    requires p.Branch? && |p.kids| == |p.keys| + 1 && i < j <= |p.kids| && |w| > 0
    requires FirstLeaf(w[0]) == FirstLeaf(p.kids[i])
    ensures FirstLeaf(WithKids(p, i, j, kw, w)) == FirstLeaf(p)
  {
    assert WithKids(p, i, j, kw, w).kids[0] == if i == 0 then w[0] else p.kids[0];
  }

  lemma {:induction false} ForestStored(pages: Pages, ks: seq<Key>, ts: seq<Tree>, n: nat, h: nat, lo: real, hi: real,
      nxt: Option<nat>)
    requires GoodForest(pages, ks, ts, n, h, lo, hi, nxt)
    ensures IdsOf(ts) <= pages.Keys
  {
    forall i | 0 <= i < |ts|
      ensures Ids(ts[i]) <= pages.Keys
    {
      assert GoodAt(pages, ks, ts, i, n, h, lo, hi, nxt);
      IdsStored(pages, ts[i], n, h, Lower(ks, lo, i), Upper(ks, hi, i), Next(ts, i, nxt));
    }
  }

  lemma {:induction false} KidSets(ts: seq<Tree>, i: nat, j: nat)
    requires i <= j <= |ts|
    ensures IdsOf(ts) == IdsOf(ts[..i]) + IdsOf(ts[i..j]) + IdsOf(ts[j..])
  {
    hide IdsOf;
    assert ts == ts[..i] + ts[i..j] + ts[j..];
    IdsConcat(ts[..i] + ts[i..j], ts[j..]);
    IdsConcat(ts[..i], ts[i..j]);
  }

  lemma {:induction false} KidSetsDisjoint(ts: seq<Tree>, i: nat, j: nat)
    requires i <= j <= |ts| && Disjoint(ts)
    ensures IdsOf(ts[..i]) !! IdsOf(ts[i..j]) && IdsOf(ts[i..j]) !! IdsOf(ts[j..])
  {
    hide IdsOf, Disjoint;
    assert ts == ts[..i] + ts[i..] && ts[i..] == ts[i..j] + ts[j..];
    CutDisjoint(ts[..i], ts[i..]);
    CutDisjoint(ts[i..j], ts[j..]);
    IdsConcat(ts[i..j], ts[j..]);
  }

  /** The occupancy of the children after a replacement. */
  lemma {:induction false} OccupiedSpliced(ts: seq<Tree>, i: nat, j: nat, w: seq<Tree>, n: nat)
    requires i <= j <= |ts|
    requires forall k :: 0 <= k < |ts| && !(i <= k < j) ==> Occupied(ts[k], n)
    requires AllOccupied(w, n)
    ensures AllOccupied(Spliced(ts, i, j, w), n)
  {
    hide Occupied;
    var r := Spliced(ts, i, j, w);
    forall k | 0 <= k < |r|
      ensures Occupied(r[k], n)
    {
      assert r[k] == if k < i then ts[k] else if k < i + |w| then w[k - i] else ts[k - i - |w| + j];
    }
  }

  // ------------------------------------------------------------------
  // Contents after a replacement.
  // ------------------------------------------------------------------

  lemma {:induction false} PutInKid(pages: Pages, p: Tree, i: nat, kw: seq<Key>, w: seq<Tree>, r: Record,
                 n: nat, h: nat, lo: real, hi: real, nxt: Option<nat>)
    requires p.Branch? && GoodForest(pages, p.keys, p.kids, n, h, lo, hi, nxt) && i < |p.kids|
    requires Lower(p.keys, lo, i) <= Rank(r.key) < Upper(p.keys, hi, i)
    requires FlatOf(w) == Put(Flat(p.kids[i]), r)
    ensures Flat(WithKids(p, i, i + 1, kw, w)) == Put(Flat(p), r)
    ensures |Put(Flat(p), r)| - |Flat(p)| == |FlatOf(w)| - |Flat(p.kids[i])|
  {
    hide GoodForest, FlatOf, Put;
    var ts := p.kids;
    Sides(pages, p.keys, ts, i, r.key, n, h, lo, hi, nxt);
    ForestFacts(pages, p.keys, ts, n, h, lo, hi, nxt);
    SplitAround(ts, i);
    FlatSplice(ts, i, i + 1, w);
    PutLocal(FlatOf(ts[..i]), Flat(ts[i]), FlatOf(ts[i + 1..]), r);
  }

  lemma {:induction false} DropInKid(pages: Pages, p: Tree, i: nat, w: seq<Tree>, k: Key,
                  n: nat, h: nat, lo: real, hi: real, nxt: Option<nat>)
    requires p.Branch? && GoodForest(pages, p.keys, p.kids, n, h, lo, hi, nxt) && i < |p.kids|
    requires Lower(p.keys, lo, i) <= Rank(k) < Upper(p.keys, hi, i)
    requires FlatOf(w) == Drop(Flat(p.kids[i]), k)
    ensures Flat(WithKids(p, i, i + 1, [], w)) == Drop(Flat(p), k)
  {
    hide GoodForest, FlatOf, Drop;
    var ts := p.kids;
    Sides(pages, p.keys, ts, i, k, n, h, lo, hi, nxt);
    ForestFacts(pages, p.keys, ts, n, h, lo, hi, nxt);
    SplitAround(ts, i);
    FlatSplice(ts, i, i + 1, w);
    DropLocal(FlatOf(ts[..i]), Flat(ts[i]), FlatOf(ts[i + 1..]), k);
  }

  lemma {:induction false} LookupInKid(pages: Pages, p: Tree, i: nat, k: Key, n: nat, h: nat, lo: real, hi: real,
      nxt: Option<nat>)
    requires p.Branch? && GoodForest(pages, p.keys, p.kids, n, h, lo, hi, nxt) && i < |p.kids|
    requires Lower(p.keys, lo, i) <= Rank(k) < Upper(p.keys, hi, i)
    ensures Lookup(Flat(p), k) == Lookup(Flat(p.kids[i]), k)
  {
    hide GoodForest, FlatOf, Lookup;
    var ts := p.kids;
    Sides(pages, p.keys, ts, i, k, n, h, lo, hi, nxt);
    SplitAround(ts, i);
    LookupLocal(FlatOf(ts[..i]), Flat(ts[i]), FlatOf(ts[i + 1..]), k);
  }

  /** Rearranging the contents of neighbouring children changes nothing as a whole. */
  lemma {:induction false} SameInKids(p: Tree, i: nat, j: nat, kw: seq<Key>, w: seq<Tree>)
    requires p.Branch? && |p.kids| == |p.keys| + 1 && i < j <= |p.kids|
    requires FlatOf(w) == FlatOf(p.kids[i..j])
    ensures Flat(WithKids(p, i, j, kw, w)) == Flat(p)
  {
    hide FlatOf;
    FlatSplice(p.kids, i, j, w);
    FlatSplice(p.kids, i, j, p.kids[i..j]);
    assert Spliced(p.kids, i, j, p.kids[i..j]) == p.kids;
  }

  // ------------------------------------------------------------------
  // Node editing and key search as the source does them.
  // ------------------------------------------------------------------

  /** The first index whose key is above `key`: partition_point(k <= key). */
  function UpperBound(keys: seq<Key>, key: Key): (p: nat)
    ensures p <= |keys|
    ensures forall i :: 0 <= i < p ==> Rank(keys[i]) <= Rank(key)
    ensures p < |keys| ==> Rank(key) < Rank(keys[p])
  {
    if keys == [] || Less(key, keys[0]) then 0 else 1 + UpperBound(keys[1..], key)
  }

  /** The first index whose key is not below `key`: partition_point(k < key). */
  function LowerBound(keys: seq<Key>, key: Key): (p: nat)
    ensures p <= |keys|
    ensures forall i :: 0 <= i < p ==> Rank(keys[i]) < Rank(key)
    ensures p < |keys| ==> Rank(key) <= Rank(keys[p])
  {
    if keys == [] || !Less(keys[0], key) then 0 else 1 + LowerBound(keys[1..], key)
  }

  function InsertAt<T>(s: seq<T>, i: nat, x: T): seq<T>
    requires i <= |s|
  {
    s[..i] + [x] + s[i..]
  }

  function RemoveAt<T>(s: seq<T>, i: nat): seq<T>
    requires i < |s|
  {
    s[..i] + s[i + 1..]
  }

  function EmptyLeaf(): Node { Node(LeafNode, [], [], [], None) }

  function EmptyInternal(): Node { Node(InternalNode, [], [], [], None) }

  function SatSub(x: nat, y: nat): nat { if x < y then 0 else x - y }

  /** What a recursive insert into `t` leaves: one tree, or two with a separator. */
  ghost predicate Inserted(pages': Pages, t: Tree, r: Record, split: Option<(Key, nat)>, kw: seq<Key>, w: seq<Tree>,
                           n: nat, h: nat, lo: real, hi: real, nxt: Option<nat>, next: nat, next': nat)
  {
    && GoodForest(pages', kw, w, n, h, lo, hi, nxt)
    && FlatOf(w) == Put(Flat(t), r)
    && w[0].id == t.id && FirstLeaf(w[0]) == FirstLeaf(t)
    && Grown(IdsOf(w), Ids(t), next, next')
    && match split
       case None =>
         |w| == 1 && w[0].Leaf? == t.Leaf? && KeyCount(t) <= KeyCount(w[0]) <= MaxKeys(w[0], n)
       case Some((key, rid)) =>
         |w| == 2 && kw == [key] && w[1].id == rid && AllOccupied(w, n)
  }

  /** The two halves of a full branch, once their pages are written. */
  lemma {:induction false} SplitHalves(pages: Pages, pages': Pages, t: Tree, mid: nat, rid: nat,
                    n: nat, h: nat, lo: real, hi: real, nxt: Option<nat>)
    requires n >= 3 && h > 0 && t.Branch? && |t.kids| == |t.keys| + 1 && Good(pages, t, n, h, lo, hi, nxt)
    requires n - 1 <= |t.keys| <= MaxKeys(t, n) + 1 && mid == |t.keys| / 2
    requires rid !in Ids(t) && rid in pages' && t.id in pages'
    requires SamePages(pages, pages', IdsOf(t.kids))
    requires BranchPage(pages'[t.id], t.keys[..mid], t.kids[..mid + 1])
    requires BranchPage(pages'[rid], t.keys[mid + 1..], t.kids[mid + 1..])
    ensures var a, b :=
        Branch(t.id, t.keys[..mid], t.kids[..mid + 1]), Branch(rid, t.keys[mid + 1..], t.kids[mid + 1..]);
      && GoodForest(pages', [t.keys[mid]], [a, b], n, h, lo, hi, nxt) && AllOccupied([a, b], n)
      && FirstLeaf(a) == FirstLeaf(t) && FlatOf([a, b]) == Flat(t)
      && IdsOf([a, b]) == Ids(t) + {rid}
  {
    hide Good, GoodForest, IdsOf, FlatOf, BranchPage, AllOccupied, Ids, FirstLeaf, SortedKeys;
    NodeKind(pages, t, n, h, lo, hi, nxt);
    IdsSelf(t);
    FlatBranch(t.id, t.keys, t.kids);
    var s, ka, kb, ta, tb := t.keys[mid], t.keys[..mid], t.keys[mid + 1..], t.kids[..mid + 1], t.kids[mid + 1..];
    assert t.keys == ka + [s] + kb && t.kids == ta + tb;
    OccupiedHalves(ta, tb, n);
    Halves(pages, pages', t.id, rid, ka, s, kb, ta, tb, n, h, lo, hi, nxt);
    assert |ka| == mid && |kb| == |t.keys| - mid - 1;
    assert AllOccupied([Branch(t.id, ka, ta), Branch(rid, kb, tb)],
        n) by { OccupiedPair(Branch(t.id, ka, ta), Branch(rid, kb, tb), n); }
  }

  lemma {:induction false} OccupiedHalves(a: seq<Tree>, b: seq<Tree>, n: nat)
    ensures AllOccupied(a + b, n) <==> AllOccupied(a, n) && AllOccupied(b, n)
  {
    hide Occupied;
    if AllOccupied(a + b, n) {
      forall i | 0 <= i < |a|
        ensures Occupied(a[i], n)
      {
        assert (a + b)[i] == a[i];
      }
      forall i | 0 <= i < |b|
        ensures Occupied(b[i], n)
      {
        assert (a + b)[|a| + i] == b[i];
      }
    }
  }

  lemma {:induction false} OccupiedPair(a: Tree, b: Tree, n: nat)
    requires Occupied(a, n) && Occupied(b, n)
    ensures AllOccupied([a, b], n)
  {
  }

  /** Two branches made of the two parts of the children of a third. */
  lemma {:induction false} Halves(pages: Pages, pages': Pages, id: nat, rid: nat, ka: seq<Key>, s: Key, kb: seq<Key>,
                                  ta: seq<Tree>, tb: seq<Tree>, n: nat, h: nat, lo: real, hi: real, nxt: Option<nat>)
    requires h > 0 && |ta| == |ka| + 1 && |tb| == |kb| + 1
    requires GoodForest(pages, ka + [s] + kb, ta + tb, n, h - 1, lo, hi, nxt)
    requires AllOccupied(ta, n) && AllOccupied(tb, n)
    requires id != rid && id !in IdsOf(ta + tb) && rid !in IdsOf(ta + tb)
    requires SamePages(pages, pages', IdsOf(ta + tb))
    requires id in pages' && BranchPage(pages'[id], ka, ta)
    requires rid in pages' && BranchPage(pages'[rid], kb, tb)
    ensures var a, b := Branch(id, ka, ta), Branch(rid, kb, tb);
      && GoodForest(pages', [s], [a, b], n, h, lo, hi, nxt)
      && FirstLeaf(a) == FirstLeaf(Branch(id, ka + [s] + kb, ta + tb)) && FlatOf([a, b]) == FlatOf(ta + tb)
      && IdsOf([a, b]) == {id, rid} + IdsOf(ta + tb)
  {
    hide Good, GoodForest, AllOccupied, BranchPage, FirstLeaf, IdsOf, FlatOf;
    var a, b := Branch(id, ka, ta), Branch(rid, kb, tb);
    ForestFacts(pages, ka + [s] + kb, ta + tb, n, h - 1, lo, hi, nxt);
    assert lo < Rank(s) < hi by { assert (ka + [s] + kb)[|ka|] == s; }
    Cut(pages, ka, s, kb, ta, tb, n, h - 1, lo, hi, nxt);
    FirstKid(id, ka, ta);
    FirstKid(rid, kb, tb);
    FirstKid(id, ka + [s] + kb, ta + tb);
    FlatBranch(id, ka, ta);
    FlatBranch(rid, kb, tb);
    IdsConcat(ta, tb);
    FlatConcat(ta, tb);
    ForestFrame(pages, pages', ka, ta, n, h - 1, lo, Rank(s), Some(FirstLeaf(tb[0])));
    ForestFrame(pages, pages', kb, tb, n, h - 1, Rank(s), hi, nxt);
    Assemble(pages', a, n, h, lo, Rank(s), Some(FirstLeaf(b)));
    Assemble(pages', b, n, h, Rank(s), hi, nxt);
    TwoTrees(pages', s, a, b, n, h, lo, hi, nxt);
  }

  ghost predicate RootOccupied(t: Tree, n: nat) {
    KeyCount(t) <= MaxKeys(t, n) && (t.Branch? ==> KeyCount(t) >= 1)
  }

  lemma {:induction false} FlatBranch(id: nat, ks: seq<Key>, ts: seq<Tree>)
    ensures Flat(Branch(id, ks, ts)) == FlatOf(ts) && Ids(Branch(id, ks, ts)) == {id} + IdsOf(ts)
  {
  }

  lemma {:induction false} OnlyTree(pages: Pages, ks: seq<Key>, ts: seq<Tree>, n: nat, h: nat, lo: real, hi: real,
      nxt: Option<nat>)
    requires GoodForest(pages, ks, ts, n, h, lo, hi, nxt) && |ts| == 1
    ensures Good(pages, ts[0], n, h, lo, hi, nxt) && FlatOf(ts) == Flat(ts[0]) && IdsOf(ts) == Ids(ts[0])
  {
    hide Good, IdsOf, FlatOf;
    assert GoodAt(pages, ks, ts, 0, n, h, lo, hi, nxt);
    assert ts == [ts[0]];
    FlatOne(ts[0]);
    OneTreeIds(ts[0]);
  }

  /** A root above the two halves of the old one. */
  lemma {:induction false} RootGrown(pages: Pages, pages': Pages, id: nat, kw: seq<Key>, w: seq<Tree>, n: nat, h: nat)
    requires n >= 3 && |w| == 2 && GoodForest(pages, kw, w, n, h, MIN_RANK, MAX_RANK, None) && AllOccupied(w, n)
    requires id !in IdsOf(w) && id in pages' && BranchPage(pages'[id], kw, w)
    requires forall x :: x in pages && x != id ==> x in pages' && pages'[x] == pages[x]
    ensures Good(pages', Branch(id, kw, w), n, h + 1, MIN_RANK, MAX_RANK, None)
  {
    ForestFrame(pages, pages', kw, w, n, h, MIN_RANK, MAX_RANK, None);
  }

  /** The page of the root of a tree tells whether it is a leaf. */
  lemma {:induction false} NodeKind(pages: Pages, t: Tree, n: nat, h: nat, lo: real, hi: real, nxt: Option<nat>)
    requires Good(pages, t, n, h, lo, hi, nxt)
    ensures t.id in pages && (pages[t.id].IsLeaf() <==> t.Leaf?)
    ensures t.Leaf? ==> h == 0 && LeafPage(pages[t.id], t.recs, nxt) && Ascending(t.recs) && Within(t.recs, lo, hi)
    ensures t.Branch? ==> h > 0 && BranchPage(pages[t.id], t.keys, t.kids) && |t.kids| == |t.keys| + 1
    ensures t.Branch? ==> SortedKeys(t.keys, lo, hi) && t.id !in IdsOf(t.kids) && AllOccupied(t.kids, n)
    ensures t.Branch? ==> GoodForest(pages, t.keys, t.kids, n, h - 1, lo, hi, nxt)
  {
  }

  /** The child that an ordered descent enters. */
  lemma {:induction false} DescendOK(pages: Pages, t: Tree, pos: nat, n: nat, h: nat, lo: real, hi: real,
      nxt: Option<nat>, next: nat)
    requires t.Branch? && Good(pages, t, n, h, lo, hi, nxt) && pos < |t.kids| == |t.keys| + 1 && Below(Ids(t), next)
    ensures Good(pages, t.kids[pos], n, h - 1, Lower(t.keys, lo, pos), Upper(t.keys, hi, pos), Next(t.kids, pos, nxt))
    ensures Below(Ids(t.kids[pos]), next) && Ids(t.kids[pos]) <= Ids(t) && t.id !in Ids(t.kids[pos])
    ensures Occupied(t.kids[pos], n) && Lower(t.keys, lo, pos) < Upper(t.keys, hi, pos)
  {
    Member(pages, t.keys, t.kids, pos, n, h - 1, lo, hi, nxt);
    IdsHave(t.kids, pos);
  }

  /** The position that the key search finds leads to the child whose bounds hold the key. */
  lemma {:induction false} Descent(pages: Pages, t: Tree, pos: nat, k: Key, n: nat, h: nat, lo: real, hi: real,
      nxt: Option<nat>, next: nat)
    requires t.Branch? && Good(pages, t, n, h, lo, hi, nxt) && Below(Ids(t), next)
    requires lo <= Rank(k) < hi && pos == UpperBound(t.keys, k)
    ensures pos < |t.kids| == |t.keys| + 1
    ensures Lower(t.keys, lo, pos) <= Rank(k) < Upper(t.keys, hi, pos)
    ensures Good(pages, t.kids[pos], n, h - 1, Lower(t.keys, lo, pos), Upper(t.keys, hi, pos), Next(t.kids, pos, nxt))
    ensures Below(Ids(t.kids[pos]), next) && Ids(t.kids[pos]) <= Ids(t) && t.id !in Ids(t.kids[pos]) && t.id in Ids(t)
    ensures KeyCount(t.kids[pos]) <= MaxKeys(t.kids[pos], n)
    ensures n >= 4 ==> t.kids[pos].Branch? ==> |t.kids[pos].keys| >= 1
  {
    hide Good, GoodForest, Ids, IdsOf, AllOccupied, SortedKeys, BranchPage;
    NodeKind(pages, t, n, h, lo, hi, nxt);
    DescendOK(pages, t, pos, n, h, lo, hi, nxt, next);
    IdsSelf(t);
  }

  /** The branch after the insert into its child number `pos` returned and its page was set to `node`. */
  lemma {:induction false} ChildInserted(pages: Pages, pages1: Pages, node: Node, t: Tree, pos: nat,
                                         split: Option<(Key, nat)>, kw: seq<Key>, w: seq<Tree>, r: Record,
                                         n: nat, h: nat, lo: real, hi: real, nxt: Option<nat>, next: nat, next': nat)
    requires n >= 3 && t.Branch? && Good(pages, t, n, h, lo, hi, nxt) && pos < |t.kids| == |t.keys| + 1
    requires Below(Ids(t), next) && next <= next'
    requires Lower(t.keys, lo, pos) <= Rank(r.key) < Upper(t.keys, hi, pos)
    requires Inserted(pages1, t.kids[pos], r, split, kw, w, n, h - 1, Lower(t.keys, lo, pos), Upper(t.keys, hi, pos),
                      Next(t.kids, pos, nxt), next, next')
    requires Framed(pages, pages1, Ids(t.kids[pos]), next)
    requires BranchPage(node, Spliced(t.keys, pos, pos, kw), Spliced(t.kids, pos, pos + 1, w))
    ensures var t' := WithKids(t, pos, pos + 1, kw, w);
      && Good(pages1[t.id := node], t', n, h, lo, hi, nxt) && Flat(t') == Put(Flat(t), r)
      && FirstLeaf(t') == FirstLeaf(t) && Grown(Ids(t'), Ids(t), next, next')
      && KeyCount(t') == KeyCount(t) + |kw|
    ensures |Put(Flat(t), r)| == |Flat(t)| <==> |Put(Flat(t.kids[pos]), r)| == |Flat(t.kids[pos])|
  {
    hide Good, FlatOf, Put, FirstLeaf, IdsOf, AllOccupied;
    DescendOK(pages, t, pos, n, h, lo, hi, nxt, next);
    OccupiedAfter(t.kids[pos], split, w, n);
    NodeKind(pages, t, n, h, lo, hi, nxt);
    IdsSelf(t);
    BranchReplaced(pages, pages1, node, t, pos, kw, w, n, h, lo, hi, nxt, next, next');
    PutInKid(pages, t, pos, kw, w, r, n, h - 1, lo, hi, nxt);
  }

  lemma {:induction false} OccupiedAfter(c: Tree, split: Option<(Key, nat)>, w: seq<Tree>, n: nat)
    requires Occupied(c, n) && |w| > 0
    requires split.None? ==> |w| == 1 && w[0].Leaf? == c.Leaf? && KeyCount(c) <= KeyCount(w[0]) <= MaxKeys(w[0], n)
    requires split.Some? ==> AllOccupied(w, n)
    ensures AllOccupied(w, n)
  {
  }

  /** A branch after child number `pos` was replaced by `w` and its page was set to `node`. */
  lemma {:induction false} BranchReplaced(pages: Pages, pages1: Pages, node: Node, t: Tree, pos: nat, kw: seq<Key>,
      w: seq<Tree>,
                                          n: nat, h: nat, lo: real, hi: real, nxt: Option<nat>, next: nat, next': nat)
    requires t.Branch? && h > 0 && pos < |t.kids| == |t.keys| + 1
    requires t.id !in IdsOf(t.kids) && AllOccupied(t.kids, n) && AllOccupied(w, n)
    requires GoodForest(pages, t.keys, t.kids, n, h - 1, lo, hi, nxt)
    requires Below(Ids(t), next) && t.id in Ids(t) && t.id !in Ids(t.kids[pos])
    requires GoodForest(pages1, kw, w, n, h - 1, Lower(t.keys, lo, pos), Upper(t.keys, hi, pos), Next(t.kids, pos, nxt))
    requires |w| > 0 && FirstLeaf(w[0]) == FirstLeaf(t.kids[pos]) && Grown(IdsOf(w), Ids(t.kids[pos]), next, next')
    requires Framed(pages, pages1, Ids(t.kids[pos]), next)
    requires BranchPage(node, Spliced(t.keys, pos, pos, kw), Spliced(t.kids, pos, pos + 1, w))
    ensures var t' := WithKids(t, pos, pos + 1, kw, w);
      && Good(pages1[t.id := node], t', n, h, lo, hi, nxt)
      && FirstLeaf(t') == FirstLeaf(t) && Grown(Ids(t'), Ids(t), next, next')
      && KeyCount(t') == KeyCount(t) + |kw|
  {
    hide GoodForest, Good, FirstLeaf, IdsOf, Ids, Spliced, AllOccupied, BranchPage;
    var pages' := pages1[t.id := node];
    assert t.id !in IdsOf(w);
    Member(pages, t.keys, t.kids, pos, n, h - 1, lo, hi, nxt);
    ForestFrame(pages1, pages', kw, w, n, h - 1, Lower(t.keys, lo, pos), Upper(t.keys, hi, pos),
        Next(t.kids, pos, nxt));
    KidsReplaced(pages, pages', t, pos, pos + 1, kw, w, n, h - 1, lo, hi, nxt, next, next');
    OccupiedKids(t.kids, pos, pos + 1, w, n);
    SplicedSize(t.keys, pos, pos, kw);
    Assemble(pages', WithKids(t, pos, pos + 1, kw, w), n, h, lo, hi, nxt);
  }

  /** A page, a forest and its occupancy make a tree. */
  lemma {:induction false} Assemble(pages: Pages, t: Tree, n: nat, h: nat, lo: real, hi: real, nxt: Option<nat>)
    requires t.Branch? && h > 0 && t.id in pages && BranchPage(pages[t.id], t.keys, t.kids)
    requires t.id !in IdsOf(t.kids) && AllOccupied(t.kids, n)
    requires GoodForest(pages, t.keys, t.kids, n, h - 1, lo, hi, nxt)
    ensures Good(pages, t, n, h, lo, hi, nxt)
  {
  }

  lemma {:induction false} OccupiedKids(ts: seq<Tree>, i: nat, j: nat, w: seq<Tree>, n: nat)
    requires i <= j <= |ts| && AllOccupied(ts, n) && AllOccupied(w, n)
    ensures AllOccupied(Spliced(ts, i, j, w), n)
  {
    OccupiedSpliced(ts, i, j, w, n);
  }

  /** Overwriting or inserting at the position found is `Put`. */
  lemma {:induction false} LeafPut(recs: seq<Record>, keys: seq<Key>, r: Record, pos: nat, lo: real, hi: real)
    requires |keys| == |recs| && forall i :: 0 <= i < |recs| ==> keys[i] == recs[i].key
    requires Ascending(recs) && Within(recs, lo, hi) && lo <= Rank(r.key) < hi && pos == LowerBound(keys, r.key)
    ensures var found := pos < |keys| && keys[pos] == r.key;
      Put(recs, r) == if found then recs[pos := r] else InsertAt(recs, pos, r)
    ensures Ascending(Put(recs, r)) && Within(Put(recs, r), lo, hi)
  {
    PutAscending(recs, r);
    PutWithin(recs, r, lo, hi);
    if pos < |keys| && Rank(keys[pos]) == Rank(r.key) {
      RankInjective(keys[pos], r.key);
    }
    PutAt(recs, r, pos);
  }

  lemma {:induction false} PutAt(recs: seq<Record>, r: Record, pos: nat)
    requires Ascending(recs) && pos <= |recs|
    requires forall i :: 0 <= i < pos ==> Rank(recs[i].key) < Rank(r.key)
    requires pos < |recs| && recs[pos].key != r.key ==> Rank(r.key) < Rank(recs[pos].key)
    ensures Put(recs, r) ==
      if pos < |recs| && recs[pos].key == r.key then recs[pos := r] else InsertAt(recs, pos, r)
  {
    var hit := pos < |recs| && recs[pos].key == r.key;
    var j := if hit then pos + 1 else pos;
    PutWindow(recs[..pos], recs[pos..j], recs[j..], r);
    assert recs == recs[..pos] + recs[pos..j] + recs[j..];
    assert hit ==> recs[pos := r] == recs[..pos] + [r] + recs[j..];
  }

  lemma {:induction false} PutWindow(a: seq<Record>, b: seq<Record>, c: seq<Record>, r: Record)
    requires AllBelow(a, r.key) && AllAbove(c, r.key) && |b| <= 1
    requires b != [] ==> b[0].key == r.key
    ensures Put(a + b + c, r) == a + [r] + c
  {
    PutLocal(a, b, c, r);
    assert Put(b, r) == [r];
  }

  /** A leaf's page after overwriting or inserting a record. */
  lemma {:induction false} LeafWritten(node: Node, recs: seq<Record>, nxt: Option<nat>, pos: nat, r: Record)
    requires LeafPage(node, recs, nxt) && pos <= |recs|
    ensures pos < |recs| && recs[pos].key == r.key ==>
      LeafPage(node.(records := node.records[pos := r]), recs[pos := r], nxt)
    ensures LeafPage(node.(keys := InsertAt(node.keys, pos, r.key), records := InsertAt(node.records, pos, r)),
        InsertAt(recs, pos, r), nxt)
  {
  }

  lemma {:induction false} GoodLeaf(pages: Pages, t: Tree, n: nat, lo: real, hi: real, nxt: Option<nat>)
    requires t.Leaf? && t.id in pages && LeafPage(pages[t.id], t.recs, nxt)
    requires Ascending(t.recs) && Within(t.recs, lo, hi) && lo < hi
    ensures Good(pages, t, n, 0, lo, hi, nxt)
    ensures GoodForest(pages, [], [t], n, 0, lo, hi, nxt)
    ensures IdsOf([t]) == Ids(t) && FlatOf([t]) == t.recs
  {
    OneTree(pages, t, n, 0, lo, hi, nxt);
  }

  lemma {:induction false} SplitPage(node: Node, node': Node, t: Tree, pos: nat, kw: seq<Key>, w: seq<Tree>)
    requires t.Branch? && pos < |t.kids| == |t.keys| + 1 && BranchPage(node, t.keys, t.kids)
    requires |kw| == 1 && |w| == 2 && w[0].id == t.kids[pos].id
    requires node' == node.(keys := InsertAt(node.keys, pos, kw[0]),
        children := InsertAt(node.children, pos + 1, w[1].id))
    ensures BranchPage(node', Spliced(t.keys, pos, pos, kw), Spliced(t.kids, pos, pos + 1, w))
  {
  }

  lemma {:induction false} SamePage(node: Node, t: Tree, pos: nat, kw: seq<Key>, w: seq<Tree>)
    requires t.Branch? && pos < |t.kids| == |t.keys| + 1 && BranchPage(node, t.keys, t.kids)
    requires kw == [] && |w| == 1 && w[0].id == t.kids[pos].id
    ensures BranchPage(node, Spliced(t.keys, pos, pos, kw), Spliced(t.kids, pos, pos + 1, w))
  {
    assert Spliced(t.keys, pos, pos, kw) == t.keys;
  }

  // ------------------------------------------------------------------
  // Trees that only inserts have touched.
  // ------------------------------------------------------------------

  /** No branch holds more than the n-2 keys at which inserts split it. */
  ghost predicate Thin(t: Tree, n: nat) {
    t.Branch? ==> |t.keys| <= n - 2 && forall i :: 0 <= i < |t.kids| ==> Thin(t.kids[i], n)
  }

  /** The two halves of a full leaf, once their pages are written. */
  lemma {:induction false} LeafHalves(pages: Pages, pages': Pages, t: Tree, mid: nat, rid: nat, n: nat, lo: real,
      hi: real,
      nxt: Option<nat>)
    requires n >= 3 && t.Leaf? && Good(pages, t, n, 0, lo, hi, nxt) && |t.recs| == n - 1 && mid == |t.recs| / 2
    requires rid != t.id && t.id in pages' && rid in pages'
    requires LeafPage(pages'[t.id], t.recs[..mid], Some(rid)) && LeafPage(pages'[rid], t.recs[mid..], nxt)
    ensures var a, b := Leaf(t.id, t.recs[..mid]), Leaf(rid, t.recs[mid..]);
      && GoodForest(pages', [t.recs[mid].key], [a, b], n, 0, lo, hi, nxt) && AllOccupied([a, b], n)
      && FirstLeaf(a) == FirstLeaf(t) && FlatOf([a, b]) == Flat(t) && IdsOf([a, b]) == Ids(t) + {rid}
  {
    hide GoodForest, FlatOf, IdsOf, LeafPage;
    var a, b, key := Leaf(t.id, t.recs[..mid]), Leaf(rid, t.recs[mid..]), t.recs[mid].key;
    assert Ascending(t.recs[..mid]) && Within(t.recs[..mid], lo, Rank(key));
    assert Ascending(t.recs[mid..]) && Within(t.recs[mid..], Rank(key), hi);
    assert lo < Rank(key) by { assert Rank(t.recs[0].key) < Rank(key); }
    GoodLeaf(pages', a, n, lo, Rank(key), Some(rid));
    GoodLeaf(pages', b, n, Rank(key), hi, nxt);
    TwoTrees(pages', key, a, b, n, 0, lo, hi, nxt);
    assert t.recs == t.recs[..mid] + t.recs[mid..];
  }

  /** An insert keeps a tree thin, and a branch it splits leaves a fixed number of keys on the right. */
  ghost predicate StaysThin(t: Tree, w: seq<Tree>, n: nat) {
    Thin(t, n) ==>
      && (forall i :: 0 <= i < |w| ==> Thin(w[i], n))
      && (|w| == 2 && w[1].Branch? ==> |w[1].keys| == n - 2 - (n - 1) / 2)
  }

  lemma {:induction false} AloneThin(t: Tree, w: seq<Tree>, n: nat)
    requires StaysThin(t, w, n) && |w| == 1
    ensures Thin(t, n) ==> Thin(w[0], n)
  {
  }

  lemma {:induction false} LeavesThin(t: Tree, w: seq<Tree>, n: nat)
    requires forall i :: 0 <= i < |w| ==> w[i].Leaf?
    ensures StaysThin(t, w, n)
  {
  }

  /** The branch with what the insert made of child `pos`. */
  lemma {:induction false} KidsThin(t: Tree, pos: nat, kc: seq<Key>, wc: seq<Tree>, n: nat)
    requires t.Branch? && pos < |t.kids| == |t.keys| + 1 && |wc| == |kc| + 1 && StaysThin(t.kids[pos], wc, n)
    ensures var t' := WithKids(t, pos, pos + 1, kc, wc);
      && |t'.keys| == |t.keys| + |kc|
      && (Thin(t, n) ==> forall i :: 0 <= i < |t'.kids| ==> Thin(t'.kids[i], n))
      && (|t'.keys| <= n - 2 ==> StaysThin(t, [t'], n))
  {
    var t' := WithKids(t, pos, pos + 1, kc, wc);
    if Thin(t, n) {
      forall i | 0 <= i < |t'.kids|
        ensures Thin(t'.kids[i], n)
      {
        assert t'.kids[i] == if i < pos then t.kids[i] else if i < pos + |wc| then wc[i - pos]
            else t.kids[i - |wc| + 1];
      }
    }
  }

  /** A branch cut around its middle key. */
  ghost function Halved(t: Tree, id: nat, rid: nat): seq<Tree>
    requires t.Branch? && |t.kids| == |t.keys| + 1 && |t.keys| >= 1
  {
    var mid := |t.keys| / 2;
    [Branch(id, t.keys[..mid], t.kids[..mid + 1]), Branch(rid, t.keys[mid + 1..], t.kids[mid + 1..])]
  }

  lemma {:induction false} SplitThin(t: Tree, t': Tree, id: nat, rid: nat, n: nat)
    requires n >= 3 && t'.Branch? && |t'.kids| == |t'.keys| + 1 && |t'.keys| >= n - 1
    requires Thin(t, n) ==>
        t.Branch? && |t'.keys| == |t.keys| + 1 && forall i :: 0 <= i < |t'.kids| ==> Thin(t'.kids[i], n)
    ensures StaysThin(t, Halved(t', id, rid), n)
  {
    var w, mid := Halved(t', id, rid), |t'.keys| / 2;
    if Thin(t, n) {
      forall i | 0 <= i < |w[1].kids|
        ensures Thin(w[1].kids[i], n)
      {
        assert w[1].kids[i] == t'.kids[mid + 1 + i];
      }
      assert Thin(w[0], n) && Thin(w[1], n);
    }
  }

  /** A branch whose child was not split. */
  lemma {:induction false} WholeThin(t: Tree, pos: nat, kc: seq<Key>, wc: seq<Tree>, n: nat)
    requires t.Branch? && pos < |t.kids| == |t.keys| + 1 && |wc| == 1 && kc == [] && StaysThin(t.kids[pos], wc, n)
    ensures StaysThin(t, [WithKids(t, pos, pos + 1, kc, wc)], n)
  {
    KidsThin(t, pos, kc, wc, n);
  }

  lemma {:induction false} RootThin(t: Tree, t': Tree, n: nat)
    requires n >= 3 && t'.Branch? && |t'.keys| == 1 && |t'.kids| == 2 && StaysThin(t, t'.kids, n)
    ensures Thin(t, n) ==> Thin(t', n) && (t'.kids[1].Branch? ==> |t'.kids[1].keys| == n - 2 - (n - 1) / 2)
  {
  }
}
