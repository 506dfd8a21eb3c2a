/** What deletion, borrowing and merging do to the tree they touch. */
module TreeDelete {
  import opened Keys
  import opened Records
  import opened Trees
  import opened TreeSteps

  /** What a recursive delete from `t` leaves. */
  ghost predicate Deleted(pages': Pages, t: Tree, t': Tree, k: Key, n: nat, h: nat, lo: real, hi: real,
      nxt: Option<nat>) {
    && Good(pages', t', n, h, lo, hi, nxt)
    && t'.id == t.id && t'.Leaf? == t.Leaf? && FirstLeaf(t') == FirstLeaf(t) && Ids(t') <= Ids(t)
    && Flat(t') == Drop(Flat(t), k)
    && KeyCount(t) - 1 <= KeyCount(t') <= KeyCount(t)
  }

  // ------------------------------------------------------------------
  // When a delete steps outside the children of a node.
  // ------------------------------------------------------------------

  // ------------------------------------------------------------------
  // What becomes of the tree, said without pages.
  // ------------------------------------------------------------------

  /** Children `i` and `i + 1` share their records or children anew, `m` keys for the left one. */
  ghost function Shifted(p: Tree, i: nat, m: nat): Tree
    requires p.Branch? && i + 1 < |p.kids| == |p.keys| + 1
  {
    var x, y := p.kids[i], p.kids[i + 1];
    if x.Leaf? && y.Leaf? && m < |x.recs + y.recs| then
      var all := x.recs + y.recs;
      WithKids(p, i, i + 2, [all[m].key], [Leaf(x.id, all[..m]), Leaf(y.id, all[m..])])
    else if x.Branch? && y.Branch? && m < |x.keys| + 1 + |y.keys| && m < |x.kids + y.kids| then
      var ak, at := x.keys + [p.keys[i]] + y.keys, x.kids + y.kids;
      WithKids(p, i, i + 2, [ak[m]], [Branch(x.id, ak[..m], at[..m + 1]), Branch(y.id, ak[m + 1..], at[m + 1..])])
    else p
  }

  /** Children `i` and `i + 1` become one. */
  ghost function MergedAt(p: Tree, i: nat): Tree
    requires p.Branch? && i + 1 < |p.kids| == |p.keys| + 1
  {
    var x, y := p.kids[i], p.kids[i + 1];
    if x.Leaf? && y.Leaf? then WithKids(p, i, i + 2, [], [Leaf(x.id, x.recs + y.recs)])
    else if x.Branch? && y.Branch? then
      WithKids(p, i, i + 2, [], [Branch(x.id, x.keys + [p.keys[i]] + y.keys, x.kids + y.kids)])
    else p
  }

  /** An underfull child `pos` takes from its right neighbour, else from its left one, if that has keys
      to spare; otherwise it becomes one with the right neighbour, else with the left one. */
  ghost function Repaired(p: Tree, pos: nat, n: nat): Tree
    requires p.Branch? && pos < |p.kids| == |p.keys| + 1 && |p.kids| >= 2
  {
    if pos + 1 < |p.kids| && KeyCount(p.kids[pos + 1]) > (n - 1) / 2 then
      Shifted(p, pos, KeyCount(p.kids[pos]) + 1)
    else if pos > 0 && KeyCount(p.kids[pos - 1]) > (n - 1) / 2 then
      Shifted(p, pos - 1, if KeyCount(p.kids[pos - 1]) > 0 then KeyCount(p.kids[pos - 1]) - 1 else 0)
    else if pos + 1 < |p.kids| then MergedAt(p, pos)
    else MergedAt(p, pos - 1)
  }

  /** The tree without `k`, as long as nothing gets stuck: the record goes from its leaf, and on the way
      up every child that became too small is repaired. */
  ghost function TreeWithout(t: Tree, k: Key, n: nat): Tree {
    match t
    case Leaf(id, recs) => Leaf(id, Drop(recs, k))
    case Branch(id, keys, kids) =>
      var pos := UpperBound(keys, k);
      if |kids| != |keys| + 1 || Lookup(Flat(kids[pos]), k).None? then t
      else
        var c := TreeWithout(kids[pos], k, n);
        var p := Branch(id, keys, kids[pos := c]);
        if KeyCount(c) < (n - 1) / 2 && |kids| >= 2 then Repaired(p, pos, n) else p
  }

  /** A root left without keys gives way to its only child. */
  ghost function Collapsed(t: Tree): Tree {
    if t.Branch? && t.keys == [] && t.kids != [] then t.kids[0] else t
  }

  lemma {:induction false} LeafWithout(t: Tree, k: Key, n: nat)
    requires t.Leaf?
    ensures TreeWithout(t, k, n) == Leaf(t.id, Drop(t.recs, k))
  {
  }

  lemma {:induction false} BranchWithout(t: Tree, k: Key, n: nat)
    requires t.Branch? && |t.kids| == |t.keys| + 1
    ensures var pos := UpperBound(t.keys, k); var c := TreeWithout(t.kids[pos], k, n);
      TreeWithout(t, k, n) ==
        if Lookup(Flat(t.kids[pos]), k).None? then t
        else
          var p := Branch(t.id, t.keys, t.kids[pos := c]);
          if KeyCount(c) < (n - 1) / 2 && |t.kids| >= 2 then Repaired(p, pos, n) else p
  {
    hide UpperBound, Lookup, Flat, Repaired;
  }

  /** A neighbour of child `pos` has a key to spare. */
  ghost predicate CanLend(p: Tree, pos: nat, n: nat)
    requires p.Branch? && pos < |p.kids|
  {
    || (pos + 1 < |p.kids| && KeyCount(p.kids[pos + 1]) > (n - 1) / 2)
    || (pos > 0 && KeyCount(p.kids[pos - 1]) > (n - 1) / 2)
  }

  /** The number of keys the root of `t` is left with after a delete of `k`, found by going down the
      search path only.  None: a child on that path became too small and has no sibling, so that
      the code asks for child -1. */
  ghost function KeysLeft(t: Tree, k: Key, n: nat): Option<int> {
    match t
    case Leaf(_, recs) => Some(|recs| - (if Lookup(recs, k).Some? then 1 else 0))
    case Branch(_, keys, kids) =>
      var pos := UpperBound(keys, k);
      if pos >= |kids| then None
      else
        var c := KeysLeft(kids[pos], k, n);
        if c.None? then None
        else if Lookup(Flat(kids[pos]), k).None? then Some(|keys|)
        else KeysKept(t, pos, c.value, n)
  }

  /** The same for the last step: child `pos` has shrunk to `c` keys. */
  ghost function KeysKept(p: Tree, pos: nat, c: int, n: nat): Option<int>
    requires p.Branch? && pos < |p.kids|
  {
    if c >= (n - 1) / 2 || CanLend(p, pos, n) then Some(|p.keys|)
    else if |p.kids| == 1 then None
    else Some(|p.keys| - 1)
  }

  /** A branch all of whose children but number `pos` are occupied, which just lost a key. */
  ghost predicate Lacking(pages: Pages, p: Tree, pos: nat, n: nat, h: nat, lo: real, hi: real, nxt: Option<nat>) {
    && p.Branch? && h > 0 && p.id in pages && BranchPage(pages[p.id], p.keys, p.kids)
    && p.id !in IdsOf(p.kids) && pos < |p.kids| == |p.keys| + 1
    && GoodForest(pages, p.keys, p.kids, n, h - 1, lo, hi, nxt)
    && (forall i :: 0 <= i < |p.kids| && i != pos ==> Occupied(p.kids[i], n))
    && MinKeys(p.kids[pos], n) - 1 <= KeyCount(p.kids[pos]) <= MaxKeys(p.kids[pos], n)
  }

  /** What rebalancing leaves of such a branch: the same contents, all children occupied. */
  ghost predicate Rebalanced(pages': Pages, p: Tree, p': Tree, n: nat, h: nat, lo: real, hi: real, nxt: Option<nat>) {
    && Good(pages', p', n, h, lo, hi, nxt)
    && p'.Branch? && p.Branch? && p'.id == p.id && FirstLeaf(p') == FirstLeaf(p) && Ids(p') <= Ids(p)
    && Flat(p') == Flat(p)
    && |p.keys| - 1 <= |p'.keys| <= |p.keys|
  }

  /** The branch after the delete from its child number `pos` returned `c`. */
  lemma {:induction false} ChildDeleted(pages: Pages, pages': Pages, t: Tree, pos: nat, c: Tree, k: Key,
                                        n: nat, h: nat, lo: real, hi: real, nxt: Option<nat>, next: nat)
    requires n >= 3 && t.Branch? && Good(pages, t, n, h, lo, hi, nxt) && pos < |t.kids| == |t.keys| + 1
    requires Below(Ids(t), next) && Lower(t.keys, lo, pos) <= Rank(k) < Upper(t.keys, hi, pos)
    requires Deleted(pages', t.kids[pos], c, k, n, h - 1, Lower(t.keys, lo, pos), Upper(t.keys, hi, pos),
        Next(t.kids, pos, nxt))
    requires Framed(pages, pages', Ids(t.kids[pos]), next)
    ensures var p := Branch(t.id, t.keys, t.kids[pos := c]);
      && Lacking(pages', p, pos, n, h, lo, hi, nxt) && Flat(p) == Drop(Flat(t), k)
      && FirstLeaf(p) == FirstLeaf(t) && Ids(p) <= Ids(t)
  {
    hide Good, GoodForest, FirstLeaf, IdsOf, Ids, FlatOf, Drop, BranchPage, AllOccupied, Occupied, MinKeys, MaxKeys,
      KeyCount, Spliced;
    DescendOK(pages, t, pos, n, h, lo, hi, nxt, next);
    NodeKind(pages, t, n, h, lo, hi, nxt);
    IdsSelf(t);
    KeyBounds(t.kids[pos], c, n);
    var p := Branch(t.id, t.keys, t.kids[pos := c]);
    ChildSwapped(pages[t.id], t, pos, c, p.kids, n);
    assert WithKids(t, pos, pos + 1, [], [c]) == p;
    OneTree(pages', c, n, h - 1, Lower(t.keys, lo, pos), Upper(t.keys, hi, pos), Next(t.kids, pos, nxt));
    assert Flat(p) == Drop(Flat(t), k) by { DropInKid(pages, t, pos, [c], k, n, h - 1, lo, hi, nxt); }
    Member(pages, t.keys, t.kids, pos, n, h - 1, lo, hi, nxt);
    KidsReplaced(pages, pages', t, pos, pos + 1, [], [c], n, h - 1, lo, hi, nxt, next, next);
  }

  lemma {:induction false} KeyBounds(t: Tree, t': Tree, n: nat)
    requires Occupied(t, n) && t'.Leaf? == t.Leaf? && KeyCount(t) - 1 <= KeyCount(t') <= KeyCount(t)
    ensures MinKeys(t', n) - 1 <= KeyCount(t') <= MaxKeys(t', n)
  {
  }

  lemma {:induction false} ChildSwapped(node: Node, t: Tree, pos: nat, c: Tree, kids': seq<Tree>, n: nat)
    requires t.Branch? && pos < |t.kids| == |t.keys| + 1 && c.id == t.kids[pos].id && kids' == t.kids[pos := c]
    requires BranchPage(node, t.keys, t.kids) && AllOccupied(t.kids, n)
    ensures BranchPage(node, t.keys, kids')
    ensures forall i :: 0 <= i < |kids'| && i != pos ==> Occupied(kids'[i], n)
    ensures Spliced(t.kids, pos, pos + 1, [c]) == kids' && Spliced(t.keys, pos, pos, []) == t.keys
  {
  }

  /** If the child kept enough keys the branch is good as it is. */
  lemma {:induction false} StillOccupied(pages: Pages, p: Tree, pos: nat, n: nat, h: nat, lo: real, hi: real,
      nxt: Option<nat>)
    requires n >= 3 && Lacking(pages, p, pos, n, h, lo, hi, nxt) && KeyCount(p.kids[pos]) >= (n - 1) / 2
    ensures Good(pages, p, n, h, lo, hi, nxt)
  {
    hide GoodForest, IdsOf, BranchPage;
  }

  // ------------------------------------------------------------------
  // Replacing two neighbours i, i+1 of a branch.
  // ------------------------------------------------------------------

  lemma {:induction false} PairReplaced(pages: Pages, pages': Pages, p: Tree, pos: nat, i: nat, kw: seq<Key>,
      w: seq<Tree>,
                                        n: nat, h: nat, lo: real, hi: real, nxt: Option<nat>, next: nat)
    requires Lacking(pages, p, pos, n, h, lo, hi, nxt) && i + 1 < |p.kids| && (pos == i || pos == i + 1)
    requires Below(Ids(p), next)
    requires GoodForest(pages', kw, w, n, h - 1, Lower(p.keys, lo, i), Upper(p.keys, hi, i + 1),
        Next(p.kids, i + 1, nxt))
    requires AllOccupied(w, n) && FirstLeaf(w[0]) == FirstLeaf(p.kids[i]) && |kw| <= 1
    requires IdsOf(w) <= Ids(p.kids[i]) + Ids(p.kids[i + 1])
    requires FlatOf(w) == Flat(p.kids[i]) + Flat(p.kids[i + 1])
    requires Framed(pages, pages', Ids(p.kids[i]) + Ids(p.kids[i + 1]) + {p.id}, next)
    requires p.id in pages' && BranchPage(pages'[p.id], Spliced(p.keys, i, i + 1, kw), Spliced(p.kids, i, i + 2, w))
    ensures Rebalanced(pages', p, WithKids(p, i, i + 2, kw, w), n, h, lo, hi, nxt)
    ensures |WithKids(p, i, i + 2, kw, w).keys| == |p.keys| - 1 + |kw|
  {
    hide Good, GoodForest, FirstLeaf, IdsOf, FlatOf, BranchPage, AllOccupied, Occupied, Spliced, Ids, Flat, Lower,
      Upper, Next, MinKeys, MaxKeys, KeyCount;
    var p' := WithKids(p, i, i + 2, kw, w);
    Neighbours(pages, p.keys, p.kids, i, n, h - 1, lo, hi, nxt);
    assert Flat(p') == Flat(p) by { SameInKids(p, i, i + 2, kw, w); }
    assert |p'.keys| == |p.keys| - 1 + |kw| by { SplicedSize(p.keys, i, i + 1, kw); }
    assert AllOccupied(p'.kids, n) by { OccupiedSpliced(p.kids, i, i + 2, w, n); }
    KidsReplaced(pages, pages', p, i, i + 2, kw, w, n, h - 1, lo, hi, nxt, next, next);
    Assemble(pages', p', n, h, lo, hi, nxt);
  }

  // ------------------------------------------------------------------
  // Leaves: two neighbours cut anew, or made one.
  // ------------------------------------------------------------------

  /** The records of two neighbouring leaves are one ascending sequence. */
  lemma {:induction false} LeavesJoined(pages: Pages, s: Key, x: Tree, y: Tree, n: nat, h: nat, lo: real, hi: real,
      nxt: Option<nat>)
    requires x.Leaf? && lo < Rank(s) < hi
    requires Good(pages, x, n, h, lo, Rank(s), Some(FirstLeaf(y))) && Good(pages, y, n, h, Rank(s), hi, nxt)
    ensures h == 0 && y.Leaf? && Ascending(x.recs + y.recs) && Within(x.recs + y.recs, lo, hi)
    ensures x.id in pages && LeafPage(pages[x.id], x.recs, Some(y.id))
    ensures y.id in pages && LeafPage(pages[y.id], y.recs, nxt)
  {
  }

  lemma {:induction false} LeafRecut(pages': Pages, x: Tree, y: Tree, m: nat, n: nat, lo: real, hi: real,
      nxt: Option<nat>)
    requires x.Leaf? && y.Leaf? && x.id != y.id && 0 < m < |x.recs + y.recs|
    requires Ascending(x.recs + y.recs) && Within(x.recs + y.recs, lo, hi)
    requires x.id in pages' && LeafPage(pages'[x.id], (x.recs + y.recs)[..m], Some(y.id))
    requires y.id in pages' && LeafPage(pages'[y.id], (x.recs + y.recs)[m..], nxt)
    ensures var all := x.recs + y.recs;
      var w := [Leaf(x.id, all[..m]), Leaf(y.id, all[m..])];
      && GoodForest(pages', [all[m].key], w, n, 0, lo, hi, nxt)
      && FirstLeaf(w[0]) == x.id && IdsOf(w) == {x.id, y.id} && FlatOf(w) == all
  {
    hide GoodForest, IdsOf, FlatOf, Good;
    var all := x.recs + y.recs;
    var a, b := Leaf(x.id, all[..m]), Leaf(y.id, all[m..]);
    var s := all[m].key;
    CutRecords(all, m, lo, hi);
    GoodLeaf(pages', a, n, lo, Rank(s), Some(FirstLeaf(b)));
    GoodLeaf(pages', b, n, Rank(s), hi, nxt);
    TwoTrees(pages', s, a, b, n, 0, lo, hi, nxt);
    assert all == all[..m] + all[m..];
  }

  lemma {:induction false} CutRecords(all: seq<Record>, m: nat, lo: real, hi: real)
    requires 0 < m < |all| && Ascending(all) && Within(all, lo, hi)
    ensures lo < Rank(all[m].key) < hi
    ensures Ascending(all[..m]) && Within(all[..m], lo, Rank(all[m].key))
    ensures Ascending(all[m..]) && Within(all[m..], Rank(all[m].key), hi)
  {
    assert lo <= Rank(all[0].key) < Rank(all[m].key);
  }

  // ------------------------------------------------------------------
  // Branches: two neighbours cut anew, or made one.
  // ------------------------------------------------------------------

  /** The children of two neighbouring branches are one forest. */
  lemma {:induction false} BranchesJoined(pages: Pages, s: Key, x: Tree, y: Tree, n: nat, h: nat, lo: real, hi: real,
      nxt: Option<nat>)
    requires x.Branch? && lo < Rank(s) < hi && Ids(x) !! Ids(y)
    requires Good(pages, x, n, h, lo, Rank(s), Some(FirstLeaf(y))) && Good(pages, y, n, h, Rank(s), hi, nxt)
    ensures h > 0 && y.Branch? && |x.kids| == |x.keys| + 1 && |y.kids| == |y.keys| + 1
    ensures GoodForest(pages, x.keys + [s] + y.keys, x.kids + y.kids, n, h - 1, lo, hi, nxt)
    ensures AllOccupied(x.kids + y.kids, n)
    ensures x.id != y.id && x.id !in IdsOf(x.kids + y.kids) && y.id !in IdsOf(x.kids + y.kids)
    ensures x.id in pages && BranchPage(pages[x.id], x.keys, x.kids)
    ensures y.id in pages && BranchPage(pages[y.id], y.keys, y.kids)
    ensures Ids(x) + Ids(y) == {x.id, y.id} + IdsOf(x.kids + y.kids)
    ensures Flat(x) + Flat(y) == FlatOf(x.kids + y.kids)
  {
    hide Good, GoodForest, AllOccupied, BranchPage, FirstLeaf, IdsOf, FlatOf;
    NodeKind(pages, x, n, h, lo, Rank(s), Some(FirstLeaf(y)));
    NodeKind(pages, y, n, h, Rank(s), hi, nxt);
    FirstKid(y.id, y.keys, y.kids);
    IdsSelf(x);
    IdsSelf(y);
    FlatBranch(x.id, x.keys, x.kids);
    FlatBranch(y.id, y.keys, y.kids);
    IdsConcat(x.kids, y.kids);
    OccupiedHalves(x.kids, y.kids, n);
    FlatConcat(x.kids, y.kids);
    Join(pages, x.keys, s, y.keys, x.kids, y.kids, n, h - 1, lo, hi, nxt);
  }

  lemma {:induction false} BranchRecut(pages: Pages, pages': Pages, s: Key, x: Tree, y: Tree, m: nat,
                                       n: nat, h: nat, lo: real, hi: real, nxt: Option<nat>)
    requires x.Branch? && lo < Rank(s) < hi && Ids(x) !! Ids(y)
    requires Good(pages, x, n, h, lo, Rank(s), Some(FirstLeaf(y))) && Good(pages, y, n, h, Rank(s), hi, nxt)
    requires y.Branch? && |x.kids| == |x.keys| + 1 && |y.kids| == |y.keys| + 1
    requires m < |x.keys + [s] + y.keys|
    requires SamePages(pages, pages', IdsOf(x.kids + y.kids))
    requires x.id in pages' && BranchPage(pages'[x.id], (x.keys + [s] + y.keys)[..m], (x.kids + y.kids)[..m + 1])
    requires y.id in pages' && BranchPage(pages'[y.id], (x.keys + [s] + y.keys)[m + 1..], (x.kids + y.kids)[m + 1..])
    ensures var ak, at := x.keys + [s] + y.keys, x.kids + y.kids;
      var w := [Branch(x.id, ak[..m], at[..m + 1]), Branch(y.id, ak[m + 1..], at[m + 1..])];
      && GoodForest(pages', [ak[m]], w, n, h, lo, hi, nxt)
      && FirstLeaf(w[0]) == FirstLeaf(x) && IdsOf(w) == Ids(x) + Ids(y) && FlatOf(w) == Flat(x) + Flat(y)
  {
    hide Good, GoodForest, FirstLeaf, IdsOf, FlatOf, AllOccupied, BranchPage, Ids, Flat;
    BranchesJoined(pages, s, x, y, n, h, lo, hi, nxt);
    var ak, at := x.keys + [s] + y.keys, x.kids + y.kids;
    var ka, u, kb, ta, tb := ak[..m], ak[m], ak[m + 1..], at[..m + 1], at[m + 1..];
    FirstKid(x.id, ak, at);
    FirstKid(x.id, x.keys, x.kids);
    assert ak == ka + [u] + kb && at == ta + tb;
    OccupiedHalves(ta, tb, n);
    Halves(pages, pages', x.id, y.id, ka, u, kb, ta, tb, n, h, lo, hi, nxt);
  }

  lemma {:induction false} BranchMerged(pages: Pages, pages': Pages, s: Key, x: Tree, y: Tree,
                                        n: nat, h: nat, lo: real, hi: real, nxt: Option<nat>)
    requires x.Branch? && lo < Rank(s) < hi && Ids(x) !! Ids(y)
    requires Good(pages, x, n, h, lo, Rank(s), Some(FirstLeaf(y))) && Good(pages, y, n, h, Rank(s), hi, nxt)
    requires y.Branch? && SamePages(pages, pages', IdsOf(x.kids + y.kids))
    requires x.id in pages' && BranchPage(pages'[x.id], x.keys + [s] + y.keys, x.kids + y.kids)
    ensures var m := Branch(x.id, x.keys + [s] + y.keys, x.kids + y.kids);
      && GoodForest(pages', [], [m], n, h, lo, hi, nxt)
      && FirstLeaf(m) == FirstLeaf(x) && IdsOf([m]) <= Ids(x) + Ids(y) && FlatOf([m]) == Flat(x) + Flat(y)
  {
    hide Good, GoodForest, FirstLeaf, IdsOf, FlatOf, AllOccupied, BranchPage, Ids, Flat;
    BranchesJoined(pages, s, x, y, n, h, lo, hi, nxt);
    var m := Branch(x.id, x.keys + [s] + y.keys, x.kids + y.kids);
    FirstKid(x.id, m.keys, m.kids);
    FirstKid(x.id, x.keys, x.kids);
    FlatBranch(x.id, m.keys, m.kids);
    ForestFrame(pages, pages', m.keys, m.kids, n, h - 1, lo, hi, nxt);
    Assemble(pages', m, n, h, lo, hi, nxt);
    OneTree(pages', m, n, h, lo, hi, nxt);
  }

  // ------------------------------------------------------------------
  // Reading the pages of the children.
  // ------------------------------------------------------------------

  lemma {:induction false} KidPage(pages: Pages, p: Tree, i: nat, n: nat, h: nat, lo: real, hi: real, nxt: Option<nat>)
    requires p.Branch? && h > 0 && p.id in pages && BranchPage(pages[p.id], p.keys, p.kids)
    requires GoodForest(pages, p.keys, p.kids, n, h - 1, lo, hi, nxt) && i < |p.kids| == |p.keys| + 1
    ensures pages[p.id].children[i] == p.kids[i].id && p.kids[i].id in pages
    ensures var node := pages[p.kids[i].id];
      && |node.keys| == KeyCount(p.kids[i]) && (node.IsLeaf() <==> p.kids[i].Leaf?) && (p.kids[i].Leaf? <==> h == 1)
      && (p.kids[i].Leaf? ==> LeafPage(node, p.kids[i].recs, Next(p.kids, i, nxt)) && |node.records| == |node.keys|)
      && (p.kids[i].Branch? ==>
          BranchPage(node, p.kids[i].keys, p.kids[i].kids) && |p.kids[i].kids| == |p.kids[i].keys| + 1)
      && (p.kids[i].Branch? ==> |node.children| == |node.keys| + 1)
    ensures |pages[p.id].children| == |p.kids| && pages[p.id].keys == p.keys
    ensures p.kids[i].id in Ids(p.kids[i]) && p.kids[i].id in IdsOf(p.kids)
  {
    hide Good, GoodForest, IdsOf, Ids, Ascending, Within, SortedKeys;
    Member(pages, p.keys, p.kids, i, n, h - 1, lo, hi, nxt);
    NodeKind(pages, p.kids[i], n, h - 1, Lower(p.keys, lo, i), Upper(p.keys, hi, i), Next(p.kids, i, nxt));
    IdsSelf(p.kids[i]);
    IdsHave(p.kids, i);
  }

  /** `key`'s first position in `keys`, or their number if it does not occur. */
  function Position(keys: seq<Key>, key: Key): (p: nat)
    ensures p <= |keys| && (p < |keys| ==> keys[p] == key)
    ensures forall i :: 0 <= i < p ==> keys[i] != key
  {
    if keys == [] || keys[0] == key then 0 else 1 + Position(keys[1..], key)
  }

  lemma {:induction false} LeafDrop(recs: seq<Record>, keys: seq<Key>, k: Key, pos: nat, lo: real, hi: real)
    requires |keys| == |recs| && forall i :: 0 <= i < |recs| ==> keys[i] == recs[i].key
    requires Ascending(recs) && Within(recs, lo, hi) && pos == Position(keys, k)
    ensures Drop(recs, k) == if pos < |recs| then RemoveAt(recs, pos) else recs
    ensures Lookup(recs, k).Some? <==> pos < |recs|
    ensures Ascending(Drop(recs, k)) && Within(Drop(recs, k), lo, hi)
  {
    hide Ascending, Within;
    DropAscending(recs, k);
    DropWithin(recs, k, lo, hi);
    DropAt(recs, k, pos);
  }

  lemma {:induction false} RemoveLater(recs: seq<Record>, pos: nat)
    requires 0 < pos < |recs|
    ensures [recs[0]] + RemoveAt(recs[1..], pos - 1) == RemoveAt(recs, pos)
  {
  }

  lemma {:induction false} DropAt(recs: seq<Record>, k: Key, pos: nat)
    requires pos <= |recs| && (pos < |recs| ==> recs[pos].key == k)
    requires forall i :: 0 <= i < pos ==> recs[i].key != k
    ensures Drop(recs, k) == if pos < |recs| then RemoveAt(recs, pos) else recs
    ensures Lookup(recs, k).Some? <==> pos < |recs|
    decreases pos
  {
    if pos == |recs| {
      DropAbsent(recs, k);
    } else if pos > 0 {
      DropAt(recs[1..], k, pos - 1);
      RemoveLater(recs, pos);
    } else {
      assert recs[..0] + recs[1..] == recs[1..];
    }
  }

  /** An internal root without keys hands over to its only child. */
  lemma {:induction false} RootCollapses(pages: Pages, t: Tree, n: nat, h: nat)
    requires n >= 3 && t.Branch? && |t.keys| == 0 && Good(pages, t, n, h, MIN_RANK, MAX_RANK, None)
    requires |t.kids| == 1 ==> RootOccupied(t.kids[0], n)
    ensures h > 0 && |t.kids| == 1 && pages[t.id].children[0] == t.kids[0].id
    ensures Good(pages, t.kids[0], n, h - 1, MIN_RANK, MAX_RANK, None)
    ensures Flat(t.kids[0]) == Flat(t) && Ids(t.kids[0]) <= Ids(t) && RootOccupied(t.kids[0], n)
  {
    hide Good, GoodForest, IdsOf, Ids, FlatOf, Flat, SortedKeys;
    NodeKind(pages, t, n, h, MIN_RANK, MAX_RANK, None);
    OnlyTree(pages, t.keys, t.kids, n, h - 1, MIN_RANK, MAX_RANK, None);
    IdsSelf(t);
    FlatBranch(t.id, t.keys, t.kids);
  }

  // ------------------------------------------------------------------
  // Moving one record or one child between neighbouring pages.
  // ------------------------------------------------------------------

  lemma {:induction false} RecordToLeft(x: Node, y: Node, xr: seq<Record>, yr: seq<Record>, nx: Option<nat>,
      ny: Option<nat>)
    requires LeafPage(x, xr, nx) && LeafPage(y, yr, ny) && |yr| >= 2
    ensures var m := |xr| + 1;
      && LeafPage(x.(keys := x.keys + [y.keys[0]], records := x.records + [y.records[0]]), (xr + yr)[..m], nx)
      && LeafPage(y.(keys := y.keys[1..], records := y.records[1..]), (xr + yr)[m..], ny)
      && y.keys[1..][0] == (xr + yr)[m].key
  {
    assert (xr + yr)[..|xr| + 1] == xr + [yr[0]];
    assert (xr + yr)[|xr| + 1..] == yr[1..];
  }

  lemma {:induction false} RecordToRight(x: Node, y: Node, xr: seq<Record>, yr: seq<Record>, nx: Option<nat>,
      ny: Option<nat>)
    requires LeafPage(x, xr, nx) && LeafPage(y, yr, ny) && |xr| >= 2
    ensures var m := |xr| - 1;
      && LeafPage(x.(keys := x.keys[..m], records := x.records[..m]), (xr + yr)[..m], nx)
      && LeafPage(y.(keys := [x.keys[m]] + y.keys, records := [x.records[m]] + y.records), (xr + yr)[m..], ny)
      && x.keys[m] == (xr + yr)[m].key
  {
    var m := |xr| - 1;
    assert (xr + yr)[..m] == xr[..m];
    assert (xr + yr)[m..] == [xr[m]] + yr;
  }

  lemma {:induction false} ChildToLeft(x: Node, y: Node, s: Key, xk: seq<Key>, yk: seq<Key>, xt: seq<Tree>,
      yt: seq<Tree>)
    requires BranchPage(x, xk, xt) && BranchPage(y, yk, yt) && |xt| == |xk| + 1 && |yt| == |yk| + 1 && |yk| >= 1
    ensures var m, ak, at := |xk| + 1, xk + [s] + yk, xt + yt;
      && BranchPage(x.(keys := x.keys + [s], children := x.children + [y.children[0]]), ak[..m], at[..m + 1])
      && BranchPage(y.(keys := y.keys[1..], children := y.children[1..]), ak[m + 1..], at[m + 1..])
      && y.keys[0] == ak[m]
  {
    var m, ak, at := |xk| + 1, xk + [s] + yk, xt + yt;
    assert ak[..m] == xk + [s] && ak[m + 1..] == yk[1..];
    assert at[..m + 1] == xt + [yt[0]] && at[m + 1..] == yt[1..];
  }

  lemma {:induction false} ChildToRight(x: Node, y: Node, s: Key, xk: seq<Key>, yk: seq<Key>, xt: seq<Tree>,
      yt: seq<Tree>)
    requires BranchPage(x, xk, xt) && BranchPage(y, yk, yt) && |xt| == |xk| + 1 && |yt| == |yk| + 1 && |xk| >= 1
    ensures var m, ak, at := |xk| - 1, xk + [s] + yk, xt + yt;
      && BranchPage(x.(keys := x.keys[..m], children := x.children[..m + 1]), ak[..m], at[..m + 1])
      && BranchPage(y.(keys := [s] + y.keys, children := [x.children[m + 1]] + y.children), ak[m + 1..], at[m + 1..])
      && x.keys[m] == ak[m]
  {
    var m, ak, at := |xk| - 1, xk + [s] + yk, xt + yt;
    assert ak[..m] == xk[..m] && ak[m + 1..] == [s] + yk;
    assert at[..m + 1] == xt[..m + 1] && at[m + 1..] == [xt[m + 1]] + yt;
  }

  // ------------------------------------------------------------------
  // The branch after two of its children were cut anew, or merged.
  // ------------------------------------------------------------------

  /** A borrow leaves both neighbours within their bounds. */
  lemma {:induction false} BorrowBounds(p: Tree, pos: nat, sib: nat, n: nat)
    requires n >= 3 && p.Branch? && pos < |p.kids| && sib < |p.kids| && Occupied(p.kids[sib], n)
    requires MinKeys(p.kids[pos], n) - 1 <= KeyCount(p.kids[pos]) < (n - 1) / 2 < KeyCount(p.kids[sib])
    requires p.kids[pos].Leaf? <==> p.kids[sib].Leaf?
    ensures p.kids[pos].Leaf? ==>
      (n - 1) / 2 <= |p.kids[pos].recs| + 1 <= n - 2 && (n - 1) / 2 <= |p.kids[sib].recs| - 1 <= n - 2
    ensures p.kids[pos].Branch? ==>
      && n - 2 - (n - 1) / 2 <= |p.kids[pos].keys| + 1 <= (n - 1) / 2 * 2
      && n - 2 - (n - 1) / 2 <= |p.kids[sib].keys| - 1 <= (n - 1) / 2 * 2
  {
  }

  lemma {:induction false} NextOfLeaf(ts: seq<Tree>, i: nat, nxt: Option<nat>)
    requires i + 1 < |ts| && ts[i + 1].Leaf?
    ensures Next(ts, i, nxt) == Some(ts[i + 1].id)
  {
  }

  /** The three pages a borrow writes. */
  ghost predicate Wrote(pages: Pages, pages': Pages, p: Tree, i: nat)
    requires p.Branch? && i + 1 < |p.kids|
  {
    forall x ::
        x in pages && x != p.id && x != p.kids[i].id && x != p.kids[i + 1].id ==> x in pages' && pages'[x] == pages[x]
  }

  lemma {:induction false} WroteTrio(pages: Pages, pages': Pages, p: Tree, i: nat)
    requires p.Branch? && i + 1 < |p.kids|
    requires forall x :: x in pages && x != p.id && x != p.kids[i].id && x != p.kids[i + 1].id ==>
      x in pages' && pages'[x] == pages[x]
    ensures Wrote(pages, pages', p, i)
  {
  }

  /** The parent's page: one separator changed, the children as they were. */
  lemma {:induction false} SeparatorChanged(node: Node, p: Tree, i: nat, s: Key, w: seq<Tree>)
    requires p.Branch? && i + 1 < |p.kids| == |p.keys| + 1 && BranchPage(node, p.keys, p.kids)
    requires |w| == 2 && w[0].id == p.kids[i].id && w[1].id == p.kids[i + 1].id
    ensures BranchPage(node.(keys := node.keys[i := s]), Spliced(p.keys, i, i + 1, [s]), Spliced(p.kids, i, i + 2, w))
  {
    assert Spliced(p.keys, i, i + 1, [s]) == p.keys[i := s];
  }

  lemma {:induction false} FrameOfWrites(pages: Pages, pages': Pages, p: Tree, i: nat, next: nat)
    requires p.Branch? && i + 1 < |p.kids| && Wrote(pages, pages', p, i)
    ensures Framed(pages, pages', Ids(p.kids[i]) + Ids(p.kids[i + 1]) + {p.id}, next)
    ensures Framed(pages, pages', Ids(p), next)
  {
    hide IdsOf, Ids;
    IdsSelf(p.kids[i]);
    IdsSelf(p.kids[i + 1]);
    IdsHave(p.kids, i);
    IdsHave(p.kids, i + 1);
    IdsSelf(p);
  }

  lemma {:induction false} RecutLeaves(pages: Pages, pages': Pages, p: Tree, pos: nat, i: nat, m: nat,
                                       n: nat, h: nat, lo: real, hi: real, nxt: Option<nat>, next: nat)
    returns (p': Tree)
    requires n >= 3 && Lacking(pages, p, pos, n, h, lo, hi, nxt) && i + 1 < |p.kids| && (pos == i || pos == i + 1)
    requires Below(Ids(p), next) && Wrote(pages, pages', p, i)
    requires p.kids[i].Leaf? && p.kids[i + 1].Leaf?
    requires var all := p.kids[i].recs + p.kids[i + 1].recs;
      && (n - 1) / 2 <= m <= n - 2 && (n - 1) / 2 <= |all| - m <= n - 2
      && p.id in pages' && pages'[p.id] == pages[p.id].(keys := pages[p.id].keys[i := all[m].key])
      && p.kids[i].id in pages' && LeafPage(pages'[p.kids[i].id], all[..m], Some(p.kids[i + 1].id))
      && p.kids[i + 1].id in pages' && LeafPage(pages'[p.kids[i + 1].id], all[m..], Next(p.kids, i + 1, nxt))
    ensures Rebalanced(pages', p, p', n, h, lo, hi, nxt) && Framed(pages, pages', Ids(p), next) && |p'.keys| == |p.keys|
    ensures p' == Shifted(p, i, m)
  {
    hide Good, GoodForest, FlatOf, FirstLeaf, IdsOf, AllOccupied, Ids, Rebalanced, LeafPage, BranchPage, Lower, Upper,
      Next, Spliced, Occupied, Below, Framed, Wrote;
    var x, y, s := p.kids[i], p.kids[i + 1], p.keys[i];
    var all := x.recs + y.recs;
    Neighbours(pages, p.keys, p.kids, i, n, h - 1, lo, hi, nxt);
    LeavesJoined(pages, s, x, y, n, h - 1, Lower(p.keys, lo, i), Upper(p.keys, hi, i + 1), Next(p.kids, i + 1, nxt));
    LeafIds(x);
    LeafIds(y);
    LeafRecut(pages', x, y, m, n, Lower(p.keys, lo, i), Upper(p.keys, hi, i + 1), Next(p.kids, i + 1, nxt));
    var w := [Leaf(x.id, all[..m]), Leaf(y.id, all[m..])];
    TwoOccupied(w[0], w[1], n);
    SeparatorChanged(pages[p.id], p, i, all[m].key, w);
    FrameOfWrites(pages, pages', p, i, next);
    p' := WithKids(p, i, i + 2, [all[m].key], w);
    PairReplaced(pages, pages', p, pos, i, [all[m].key], w, n, h, lo, hi, nxt, next);
  }

  lemma {:induction false} LeafIds(t: Tree)
    requires t.Leaf?
    ensures Ids(t) == {t.id} && FirstLeaf(t) == t.id
  {
  }

  lemma {:induction false} TwoOccupied(a: Tree, b: Tree, n: nat)
    requires MinKeys(a, n) <= KeyCount(a) <= MaxKeys(a, n) && MinKeys(b, n) <= KeyCount(b) <= MaxKeys(b, n)
    ensures AllOccupied([a, b], n)
  {
    OccupiedPair(a, b, n);
  }

  lemma {:induction false} RecutBranches(pages: Pages, pages': Pages, p: Tree, pos: nat, i: nat, m: nat,
                                         n: nat, h: nat, lo: real, hi: real, nxt: Option<nat>, next: nat)
    returns (p': Tree)
    requires n >= 3 && Lacking(pages, p, pos, n, h, lo, hi, nxt) && i + 1 < |p.kids| && (pos == i || pos == i + 1)
    requires Below(Ids(p), next) && Wrote(pages, pages', p, i)
    requires p.kids[i].Branch? && p.kids[i + 1].Branch?
    requires |p.kids[i].kids| == |p.kids[i].keys| + 1 && |p.kids[i + 1].kids| == |p.kids[i + 1].keys| + 1
    requires var ak, at := p.kids[i].keys + [p.keys[i]] + p.kids[i + 1].keys, p.kids[i].kids + p.kids[i + 1].kids;
      && n - 2 - (n - 1) / 2 <= m <= (n - 1) / 2 * 2 && n - 2 - (n - 1) / 2 <= |ak| - m - 1 <= (n - 1) / 2 * 2
      && p.id in pages' && pages'[p.id] == pages[p.id].(keys := pages[p.id].keys[i := ak[m]])
      && p.kids[i].id in pages' && BranchPage(pages'[p.kids[i].id], ak[..m], at[..m + 1])
      && p.kids[i + 1].id in pages' && BranchPage(pages'[p.kids[i + 1].id], ak[m + 1..], at[m + 1..])
    ensures Rebalanced(pages', p, p', n, h, lo, hi, nxt) && Framed(pages, pages', Ids(p), next) && |p'.keys| == |p.keys|
    ensures p' == Shifted(p, i, m)
  {
    hide Good, GoodForest, FlatOf, FirstLeaf, IdsOf, AllOccupied, Ids, Flat, Rebalanced, BranchPage, Lower, Upper,
      Next, Spliced, Occupied, Below, Framed;
    var x, y, s := p.kids[i], p.kids[i + 1], p.keys[i];
    var ak, at := x.keys + [s] + y.keys, x.kids + y.kids;
    var l, u, nx := Lower(p.keys, lo, i), Upper(p.keys, hi, i + 1), Next(p.kids, i + 1, nxt);
    Neighbours(pages, p.keys, p.kids, i, n, h - 1, lo, hi, nxt);
    GrandKids(pages, pages', p, i, n, h, lo, hi, nxt);
    BranchRecut(pages, pages', s, x, y, m, n, h - 1, l, u, nx);
    var w := [Branch(x.id, ak[..m], at[..m + 1]), Branch(y.id, ak[m + 1..], at[m + 1..])];
    TwoOccupied(w[0], w[1], n);
    SeparatorChanged(pages[p.id], p, i, ak[m], w);
    FrameOfWrites(pages, pages', p, i, next);
    p' := WithKids(p, i, i + 2, [ak[m]], w);
    PairReplaced(pages, pages', p, pos, i, [ak[m]], w, n, h, lo, hi, nxt, next);
  }

  /** The pages below two neighbours are not among the three that change. */
  lemma {:induction false} GrandKids(pages: Pages, pages': Pages, p: Tree, i: nat, n: nat, h: nat, lo: real, hi: real,
      nxt: Option<nat>)
    requires p.Branch? && h > 0 && i + 1 < |p.kids| == |p.keys| + 1 && p.id !in IdsOf(p.kids)
    requires GoodForest(pages, p.keys, p.kids, n, h - 1, lo, hi, nxt) && Wrote(pages, pages', p, i)
    requires p.kids[i].Branch? && p.kids[i + 1].Branch?
    ensures SamePages(pages, pages', IdsOf(p.kids[i].kids + p.kids[i + 1].kids))
  {
    hide Good, GoodForest, FirstLeaf, IdsOf, Ids, FlatOf, Flat, AllOccupied, BranchPage, SortedKeys;
    var x, y, s := p.kids[i], p.kids[i + 1], p.keys[i];
    Neighbours(pages, p.keys, p.kids, i, n, h - 1, lo, hi, nxt);
    BranchesJoined(pages, s, x, y, n, h - 1, Lower(p.keys, lo, i), Upper(p.keys, hi, i + 1), Next(p.kids, i + 1, nxt));
    IdsHave(p.kids, i);
    IdsHave(p.kids, i + 1);
    assert IdsOf(x.kids + y.kids) <= IdsOf(p.kids);
  }

  /** The parent's page after a merge: one separator and the right child removed. */
  lemma {:induction false} ChildRemoved(node: Node, p: Tree, i: nat, m: Tree)
    requires p.Branch? && i + 1 < |p.kids| == |p.keys| + 1 && BranchPage(node, p.keys, p.kids) && m.id == p.kids[i].id
    ensures BranchPage(node.(keys := RemoveAt(node.keys, i), children := RemoveAt(node.children, i + 1)),
                       Spliced(p.keys, i, i + 1, []), Spliced(p.kids, i, i + 2, [m]))
  {
    assert Spliced(p.keys, i, i + 1, []) == RemoveAt(p.keys, i);
    var ks := Spliced(p.kids, i, i + 2, [m]);
    var cs := RemoveAt(node.children, i + 1);
    assert |cs| == |ks|;
    forall k | 0 <= k < |ks|
      ensures cs[k] == ks[k].id
    {
      assert ks[k] == if k < i then p.kids[k] else if k == i then m else p.kids[k + 1];
    }
  }

  lemma {:induction false} MergedKids(pages: Pages, pages': Pages, p: Tree, i: nat, pos: nat,
                                      n: nat, h: nat, lo: real, hi: real, nxt: Option<nat>, next: nat)
    returns (p': Tree)
    requires n >= 3 && Lacking(pages, p, pos, n, h, lo, hi, nxt) && i + 1 < |p.kids| && (pos == i || pos == i + 1)
    requires Below(Ids(p), next) && Wrote(pages, pages', p, i)
    requires KeyCount(p.kids[i]) + KeyCount(p.kids[i + 1]) < (n - 1) / 2 * 2
    requires p.id in pages' && pages'[p.id]
        == pages[p.id].(keys := RemoveAt(p.keys, i), children := RemoveAt(pages[p.id].children, i + 1))
    requires p.kids[i].id in pages' && (p.kids[i].Leaf? <==> p.kids[i + 1].Leaf?)
    requires p.kids[i].Leaf? ==>
        LeafPage(pages'[p.kids[i].id], p.kids[i].recs + p.kids[i + 1].recs, Next(p.kids, i + 1, nxt))
    requires p.kids[i].Branch? ==>
      BranchPage(pages'[p.kids[i].id], p.kids[i].keys + [p.keys[i]] + p.kids[i + 1].keys,
          p.kids[i].kids + p.kids[i + 1].kids)
    ensures Rebalanced(pages', p, p', n, h, lo, hi, nxt) && Framed(pages, pages', Ids(p), next)
    ensures p' == MergedAt(p, i) && p'.Branch? && |p'.keys| == |p.keys| - 1
        && (|p'.keys| == 0 ==> |p'.kids| == 1 && RootOccupied(p'.kids[0], n))
  {
    hide Good, GoodForest, FlatOf, FirstLeaf, IdsOf, AllOccupied, Ids, Rebalanced, LeafPage, Lower, Upper, Next,
      Spliced, Below, Framed;
    var x, y, s := p.kids[i], p.kids[i + 1], p.keys[i];
    var l, u, nx := Lower(p.keys, lo, i), Upper(p.keys, hi, i + 1), Next(p.kids, i + 1, nxt);
    Neighbours(pages, p.keys, p.kids, i, n, h - 1, lo, hi, nxt);
    var m;
    if x.Leaf? {
      LeavesJoined(pages, s, x, y, n, h - 1, l, u, nx);
      m := Leaf(x.id, x.recs + y.recs);
      GoodLeaf(pages', m, n, l, u, nx);
      LeafIds(x);
      LeafIds(m);
    } else {
      m := Branch(x.id, x.keys + [s] + y.keys, x.kids + y.kids);
      GrandKids(pages, pages', p, i, n, h, lo, hi, nxt);
      BranchMerged(pages, pages', s, x, y, n, h - 1, l, u, nx);
    }
    OneOccupied(m, n);
    ChildRemoved(pages[p.id], p, i, m);
    FrameOfWrites(pages, pages', p, i, next);
    p' := WithKids(p, i, i + 2, [], [m]);
    PairReplaced(pages, pages', p, pos, i, [], [m], n, h, lo, hi, nxt, next);
    LoneKid(p, i, m);
  }

  /** If the merged child is the only one, it is the first. */
  lemma {:induction false} LoneKid(p: Tree, i: nat, m: Tree)
    requires p.Branch? && i + 1 < |p.kids| == |p.keys| + 1
    ensures var p' := WithKids(p, i, i + 2, [], [m]);
        p'.Branch? && (|p'.keys| == 0 ==> |p'.kids| == 1 && p'.kids[0] == m)
  {
  }

  lemma {:induction false} OneOccupied(t: Tree, n: nat)
    requires MinKeys(t, n) <= KeyCount(t) <= MaxKeys(t, n)
    ensures AllOccupied([t], n)
  {
  }

  // ------------------------------------------------------------------
  // The key count, step by step; from order 4 on no delete gets stuck.
  // ------------------------------------------------------------------

  lemma {:induction false} LeafLeft(t: Tree, t': Tree, k: Key, n: nat)
    requires t.Leaf? && t'.Leaf? && Flat(t') == Drop(Flat(t), k)
    ensures KeysLeft(t, k, n) == Some(KeyCount(t'))
  {
    DropLength(t.recs, k);
  }

  lemma {:induction false} DropLength(s: seq<Record>, k: Key)
    ensures |Drop(s, k)| == |s| - (if Lookup(s, k).Some? then 1 else 0)
  {
    if s != [] {
      DropLength(s[1..], k);
    }
  }

  lemma {:induction false} BranchLeft(t: Tree, k: Key, n: nat)
    requires t.Branch? && |t.kids| == |t.keys| + 1
    ensures var pos := UpperBound(t.keys, k); var c := KeysLeft(t.kids[pos], k, n);
      KeysLeft(t, k, n) ==
        if c.None? then None
        else if Lookup(Flat(t.kids[pos]), k).None? then Some(|t.keys|)
        else KeysKept(t, pos, c.value, n)
  {
    hide UpperBound, Lookup, Flat;
  }

  lemma {:induction false} SameSiblings(t: Tree, pos: nat, c: Tree, n: nat)
    requires t.Branch? && pos < |t.kids|
    ensures forall m :: KeysKept(Branch(t.id, t.keys, t.kids[pos := c]), pos, m, n) == KeysKept(t, pos, m, n)
  {
  }

  /** From order 4 on every branch below the root has two children, so no delete gets stuck. */
  lemma {:induction false} NeverStuck(pages: Pages, t: Tree, k: Key, n: nat, h: nat, lo: real, hi: real,
      nxt: Option<nat>)
    requires Good(pages, t, n, h, lo, hi, nxt) && n >= 3 && (t.Branch? ==> |t.keys| >= 1)
    ensures n >= 4 ==> KeysLeft(t, k, n).Some?
    decreases h
  {
    hide Good, GoodForest, Lookup, Flat, Ids, IdsOf;
    if t.Branch? && n >= 4 {
      NodeKind(pages, t, n, h, lo, hi, nxt);
      var pos := UpperBound(t.keys, k);
      Member(pages, t.keys, t.kids, pos, n, h - 1, lo, hi, nxt);
      assert Occupied(t.kids[pos], n);
      NeverStuck(pages, t.kids[pos], k, n, h - 1, Lower(t.keys, lo, pos), Upper(t.keys, hi, pos),
          Next(t.kids, pos, nxt));
    }
  }

  // ------------------------------------------------------------------
  // Borrowing a child, from the pages written to the tree.
  // ------------------------------------------------------------------

  /** What both directions ask of the branch and its children `i` and `i + 1`. */
  ghost predicate Lending(pages: Pages, p: Tree, pos: nat, i: nat, n: nat, h: nat, lo: real, hi: real,
      nxt: Option<nat>) {
    && n >= 3 && Lacking(pages, p, pos, n, h, lo, hi, nxt) && i + 1 < |p.kids| && (pos == i || pos == i + 1)
    && p.kids[i].Branch? && p.kids[i + 1].Branch? && p.kids[i].id in pages && p.kids[i + 1].id in pages
    && KeyCount(p.kids[pos]) < (n - 1) / 2 < KeyCount(p.kids[if pos == i then i + 1 else i])
    && i < |pages[p.id].keys|
    && |pages[p.kids[i].id].children| == |pages[p.kids[i].id].keys| + 1
    && |pages[p.kids[i + 1].id].children| == |pages[p.kids[i + 1].id].keys| + 1
  }

  lemma {:induction false} FirstChildTaken(pages: Pages, pages': Pages, p: Tree, pos: nat, n: nat, h: nat, lo: real,
      hi: real,
      nxt: Option<nat>, next: nat)
    returns (p': Tree)
    requires Lending(pages, p, pos, pos, n, h, lo, hi, nxt) && Below(Ids(p), next)
    requires var pn, child, right := pages[p.id], pages[p.kids[pos].id], pages[p.kids[pos + 1].id];
      && right.keys != []
      && pages' == pages
        [p.id := pn.(keys := pn.keys[pos := right.keys[0]])]
        [p.kids[pos].id := child.(keys := child.keys + [pn.keys[pos]],
            children := child.children + [right.children[0]])]
        [p.kids[pos + 1].id := right.(keys := right.keys[1..], children := right.children[1..])]
    ensures Rebalanced(pages', p, p', n, h, lo, hi, nxt) && Framed(pages, pages', Ids(p), next)
    ensures p' == Shifted(p, pos, KeyCount(p.kids[pos]) + 1) && |p'.keys| == |p.keys|
  {
    hide Good, GoodForest, FlatOf, FirstLeaf, IdsOf, AllOccupied, Ids, Flat, Rebalanced, Lower, Upper, Next,
      Occupied, MinKeys, MaxKeys, LeafPage, BranchPage, Shifted, Wrote;
    KidPage(pages, p, pos, n, h, lo, hi, nxt);
    KidPage(pages, p, pos + 1, n, h, lo, hi, nxt);
    KidsApart(pages, p, pos, n, h, lo, hi, nxt);
    var x, y, m := p.kids[pos], p.kids[pos + 1], KeyCount(p.kids[pos]) + 1;
    BorrowBounds(p, pos, pos + 1, n);
    ChildToLeft(pages[x.id], pages[y.id], p.keys[pos], x.keys, y.keys, x.kids, y.kids);
    WroteTrio(pages, pages', p, pos);
    p' := RecutBranches(pages, pages', p, pos, pos, m, n, h, lo, hi, nxt, next);
  }

  lemma {:induction false} LastChildTaken(pages: Pages, pages': Pages, p: Tree, pos: nat, n: nat, h: nat, lo: real,
      hi: real,
      nxt: Option<nat>, next: nat)
    returns (p': Tree)
    requires 0 < pos && Lending(pages, p, pos, pos - 1, n, h, lo, hi, nxt) && Below(Ids(p), next)
    requires var pn, child, left := pages[p.id], pages[p.kids[pos].id], pages[p.kids[pos - 1].id];
      var last := |left.keys| - 1;
      && left.keys != []
      && pages' == pages
        [p.id := pn.(keys := pn.keys[pos - 1 := left.keys[last]])]
        [p.kids[pos].id :=
          child.(keys := [pn.keys[pos - 1]] + child.keys, children := [left.children[last + 1]] + child.children)]
        [p.kids[pos - 1].id := left.(keys := left.keys[..last], children := left.children[..last + 1])]
    ensures Rebalanced(pages', p, p', n, h, lo, hi, nxt) && Framed(pages, pages', Ids(p), next)
    ensures p' == Shifted(p, pos - 1, KeyCount(p.kids[pos - 1]) - 1) && |p'.keys| == |p.keys|
  {
    hide Good, GoodForest, FlatOf, FirstLeaf, IdsOf, AllOccupied, Ids, Flat, Rebalanced, Lower, Upper, Next,
      Occupied, MinKeys, MaxKeys, LeafPage, BranchPage, Shifted, Wrote;
    KidPage(pages, p, pos, n, h, lo, hi, nxt);
    KidPage(pages, p, pos - 1, n, h, lo, hi, nxt);
    KidsApart(pages, p, pos - 1, n, h, lo, hi, nxt);
    var x, y, m := p.kids[pos - 1], p.kids[pos], KeyCount(p.kids[pos - 1]) - 1;
    BorrowBounds(p, pos, pos - 1, n);
    ChildToRight(pages[x.id], pages[y.id], p.keys[pos - 1], x.keys, y.keys, x.kids, y.kids);
    WroteTrio(pages, pages', p, pos - 1);
    p' := RecutBranches(pages, pages', p, pos, pos - 1, m, n, h, lo, hi, nxt, next);
  }

  /** The same for leaves. */
  ghost predicate LendingLeaf(pages: Pages, p: Tree, pos: nat, i: nat, n: nat, h: nat, lo: real, hi: real,
      nxt: Option<nat>) {
    && n >= 3 && Lacking(pages, p, pos, n, h, lo, hi, nxt) && i + 1 < |p.kids| && (pos == i || pos == i + 1)
    && p.kids[i].Leaf? && p.kids[i + 1].Leaf? && p.kids[i].id in pages && p.kids[i + 1].id in pages
    && KeyCount(p.kids[pos]) < (n - 1) / 2 < KeyCount(p.kids[if pos == i then i + 1 else i])
    && i < |pages[p.id].keys|
    && |pages[p.kids[i].id].records| == |pages[p.kids[i].id].keys|
    && |pages[p.kids[i + 1].id].records| == |pages[p.kids[i + 1].id].keys|
  }

  lemma {:induction false} FirstRecordTaken(pages: Pages, pages': Pages, p: Tree, pos: nat, n: nat, h: nat, lo: real,
      hi: real,
      nxt: Option<nat>, next: nat)
    returns (p': Tree)
    requires LendingLeaf(pages, p, pos, pos, n, h, lo, hi, nxt) && Below(Ids(p), next)
    requires var pn, child, right := pages[p.id], pages[p.kids[pos].id], pages[p.kids[pos + 1].id];
      && |right.keys| >= 2
      && pages' == pages
        [p.id := pn.(keys := pn.keys[pos := right.keys[1..][0]])]
        [p.kids[pos].id :=
          child.(keys := child.keys + [right.keys[0]], records := child.records + [right.records[0]])]
        [p.kids[pos + 1].id := right.(keys := right.keys[1..], records := right.records[1..])]
    ensures Rebalanced(pages', p, p', n, h, lo, hi, nxt) && Framed(pages, pages', Ids(p), next)
    ensures p' == Shifted(p, pos, KeyCount(p.kids[pos]) + 1) && |p'.keys| == |p.keys|
  {
    hide Good, GoodForest, FlatOf, FirstLeaf, IdsOf, AllOccupied, Ids, Flat, Rebalanced, Lower, Upper, Next,
      Occupied, MinKeys, MaxKeys, LeafPage, BranchPage, Shifted, Wrote;
    KidPage(pages, p, pos, n, h, lo, hi, nxt);
    KidPage(pages, p, pos + 1, n, h, lo, hi, nxt);
    KidsApart(pages, p, pos, n, h, lo, hi, nxt);
    var x, y, m := p.kids[pos], p.kids[pos + 1], KeyCount(p.kids[pos]) + 1;
    BorrowBounds(p, pos, pos + 1, n);
    NextOfLeaf(p.kids, pos, nxt);
    RecordToLeft(pages[x.id], pages[y.id], x.recs, y.recs, Next(p.kids, pos, nxt), Next(p.kids, pos + 1, nxt));
    WroteTrio(pages, pages', p, pos);
    p' := RecutLeaves(pages, pages', p, pos, pos, m, n, h, lo, hi, nxt, next);
  }

  lemma {:induction false} LastRecordTaken(pages: Pages, pages': Pages, p: Tree, pos: nat, n: nat, h: nat, lo: real,
      hi: real,
      nxt: Option<nat>, next: nat)
    returns (p': Tree)
    requires 0 < pos && LendingLeaf(pages, p, pos, pos - 1, n, h, lo, hi, nxt) && Below(Ids(p), next)
    requires var pn, child, left := pages[p.id], pages[p.kids[pos].id], pages[p.kids[pos - 1].id];
      var last := |left.keys| - 1;
      && left.keys != []
      && pages' == pages
        [p.id := pn.(keys := pn.keys[pos - 1 := left.keys[last]])]
        [p.kids[pos].id :=
          child.(keys := [left.keys[last]] + child.keys, records := [left.records[last]] + child.records)]
        [p.kids[pos - 1].id := left.(keys := left.keys[..last], records := left.records[..last])]
    ensures Rebalanced(pages', p, p', n, h, lo, hi, nxt) && Framed(pages, pages', Ids(p), next)
    ensures p' == Shifted(p, pos - 1, KeyCount(p.kids[pos - 1]) - 1) && |p'.keys| == |p.keys|
  {
    hide Good, GoodForest, FlatOf, FirstLeaf, IdsOf, AllOccupied, Ids, Flat, Rebalanced, Lower, Upper, Next,
      Occupied, MinKeys, MaxKeys, LeafPage, BranchPage, Shifted, Wrote;
    KidPage(pages, p, pos, n, h, lo, hi, nxt);
    KidPage(pages, p, pos - 1, n, h, lo, hi, nxt);
    KidsApart(pages, p, pos - 1, n, h, lo, hi, nxt);
    var x, y, m := p.kids[pos - 1], p.kids[pos], KeyCount(p.kids[pos - 1]) - 1;
    BorrowBounds(p, pos, pos - 1, n);
    NextOfLeaf(p.kids, pos - 1, nxt);
    RecordToRight(pages[x.id], pages[y.id], x.recs, y.recs, Next(p.kids, pos - 1, nxt), Next(p.kids, pos, nxt));
    WroteTrio(pages, pages', p, pos - 1);
    p' := RecutLeaves(pages, pages', p, pos, pos - 1, m, n, h, lo, hi, nxt, next);
  }

  /** The three pages are three. */
  lemma {:induction false} KidsApart(pages: Pages, p: Tree, i: nat, n: nat, h: nat, lo: real, hi: real,
      nxt: Option<nat>)
    requires p.Branch? && h > 0 && i + 1 < |p.kids| && p.id !in IdsOf(p.kids)
    requires GoodForest(pages, p.keys, p.kids, n, h - 1, lo, hi, nxt)
    ensures p.id != p.kids[i].id && p.id != p.kids[i + 1].id && p.kids[i].id != p.kids[i + 1].id
  {
    hide Good, IdsOf, Ids;
    IdsHave(p.kids, i);
    IdsHave(p.kids, i + 1);
    IdsSelf(p.kids[i]);
    IdsSelf(p.kids[i + 1]);
  }
}
