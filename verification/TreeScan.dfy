/** The chain of leaves, and what walking it yields. */
module TreeScan {
  import opened Keys
  import opened Records
  import opened Trees
  import opened TreeSteps

  /** The leaves of a tree from left to right. */
  ghost function Leaves(t: Tree): seq<Tree> {
    match t
    case Leaf(_, _) => [t]
    case Branch(_, _, kids) => LeavesOf(kids)
  }

  ghost function LeavesOf(ts: seq<Tree>): seq<Tree> {
    if ts == [] then [] else Leaves(ts[0]) + LeavesOf(ts[1..])
  }

  ghost function NextId(ls: seq<Tree>, i: nat, nxt: Option<nat>): Option<nat> {
    if i + 1 < |ls| then Some(ls[i + 1].id) else nxt
  }

  ghost predicate LinkedAt(pages: Pages, ls: seq<Tree>, i: nat, nxt: Option<nat>)
    requires i < |ls|
  {
    ls[i].Leaf? && ls[i].id in pages && LeafPage(pages[ls[i].id], ls[i].recs, NextId(ls, i, nxt))
  }

  /** Every leaf's page holds its records and links to the next leaf of the list. */
  ghost predicate Linked(pages: Pages, ls: seq<Tree>, nxt: Option<nat>) {
    forall i :: 0 <= i < |ls| ==> LinkedAt(pages, ls, i, nxt)
  }

  ghost predicate Distinct(ls: seq<Tree>) {
    forall i, j :: 0 <= i < j < |ls| ==> ls[i].id != ls[j].id
  }

  lemma {:induction false} LinkedJoin(pages: Pages, a: seq<Tree>, b: seq<Tree>, nxt: Option<nat>)
    requires b != [] && Linked(pages, a, Some(b[0].id)) && Linked(pages, b, nxt)
    ensures Linked(pages, a + b, nxt)
  {
    hide LeafPage;
    forall i | 0 <= i < |a + b|
      ensures LinkedAt(pages, a + b, i, nxt)
    {
      if i < |a| {
        assert LinkedAt(pages, a, i, Some(b[0].id));
      } else {
        assert LinkedAt(pages, b, i - |a|, nxt);
      }
    }
  }

  lemma {:induction false} DistinctJoin(a: seq<Tree>, b: seq<Tree>, ia: set<nat>, ib: set<nat>)
    requires Distinct(a) && Distinct(b) && ia !! ib
    requires forall i :: 0 <= i < |a| ==> a[i].id in ia
    requires forall i :: 0 <= i < |b| ==> b[i].id in ib
    ensures Distinct(a + b)
  {
  }

  /** The chain from the first leaf visits every leaf exactly once, in order. */
  lemma {:induction false} Chain(pages: Pages, t: Tree, n: nat, h: nat, lo: real, hi: real, nxt: Option<nat>)
    requires Good(pages, t, n, h, lo, hi, nxt)
    ensures Leaves(t) != [] && Leaves(t)[0].id == FirstLeaf(t)
    ensures Linked(pages, Leaves(t), nxt) && Distinct(Leaves(t))
    ensures forall i :: 0 <= i < |Leaves(t)| ==> Leaves(t)[i].id in Ids(t)
    ensures FlatOf(Leaves(t)) == Flat(t)
    decreases h, 0, 0
  {
    hide Good, GoodForest, IdsOf, Ascending, Within, SortedKeys, LeafPage, BranchPage, AllOccupied;
    NodeKind(pages, t, n, h, lo, hi, nxt);
    if t.Leaf? {
      FlatOne(t);
      assert LinkedAt(pages, [t], 0, nxt);
    } else {
      ChainOf(pages, t.keys, t.kids, n, h - 1, lo, hi, nxt);
      FirstKid(t.id, t.keys, t.kids);
    }
  }

  lemma {:induction false} ChainOf(pages: Pages, ks: seq<Key>, ts: seq<Tree>, n: nat, h: nat, lo: real, hi: real,
      nxt: Option<nat>)
    requires GoodForest(pages, ks, ts, n, h, lo, hi, nxt)
    ensures ts != [] && LeavesOf(ts) != [] && LeavesOf(ts)[0].id == FirstLeaf(ts[0])
    ensures Linked(pages, LeavesOf(ts), nxt) && Distinct(LeavesOf(ts))
    ensures forall i :: 0 <= i < |LeavesOf(ts)| ==> LeavesOf(ts)[i].id in IdsOf(ts)
    ensures FlatOf(LeavesOf(ts)) == FlatOf(ts)
    decreases h, 1, |ts|
  {
    hide Good, GoodForest, IdsOf, Ids, FlatOf, Flat, Linked, Distinct, SortedKeys, Disjoint, Leaves, FirstLeaf;
    ForestFacts(pages, ks, ts, n, h, lo, hi, nxt);
    if |ts| == 1 {
      OnlyTree(pages, ks, ts, n, h, lo, hi, nxt);
      Chain(pages, ts[0], n, h, lo, hi, nxt);
      assert LeavesOf(ts) == Leaves(ts[0]);
    } else {
      var a, b := ts[..1], ts[1..];
      assert ks == [] + [ks[0]] + ks[1..] && ts == a + b;
      Cut(pages, [], ks[0], ks[1..], a, b, n, h, lo, hi, nxt);
      OnlyTree(pages, [], a, n, h, lo, Rank(ks[0]), Some(FirstLeaf(b[0])));
      Chain(pages, ts[0], n, h, lo, Rank(ks[0]), Some(FirstLeaf(b[0])));
      ChainOf(pages, ks[1..], b, n, h, Rank(ks[0]), hi, nxt);
      var la, lb := Leaves(ts[0]), LeavesOf(b);
      LinkedJoin(pages, la, lb, nxt);
      DistinctJoin(la, lb, IdsOf(a), IdsOf(b));
      IdsConcat(a, b);
      FlatConcat(la, lb);
      FlatConcat(a, b);
    }
  }

  lemma {:induction false} LeavesConcat(a: seq<Tree>, b: seq<Tree>)
    ensures LeavesOf(a + b) == LeavesOf(a) + LeavesOf(b)
  {
    if a == [] {
      assert a + b == b;
    } else {
      assert (a + b)[1..] == a[1..] + b;
      LeavesConcat(a[1..], b);
    }
  }

  /** Entering child number `i`: its leaves, between those left and right of it. */
  lemma {:induction false} LeavesAround(ts: seq<Tree>, i: nat)
    requires i < |ts|
    ensures LeavesOf(ts) == LeavesOf(ts[..i]) + Leaves(ts[i]) + LeavesOf(ts[i + 1..])
  {
    hide Leaves;
    assert ts == ts[..i] + ([ts[i]] + ts[i + 1..]);
    LeavesConcat(ts[..i], [ts[i]] + ts[i + 1..]);
    LeavesConcat([ts[i]], ts[i + 1..]);
    assert LeavesOf([ts[i]]) == Leaves(ts[i]) + LeavesOf([]);
  }

  /** The leaves of a forest hold its contents, whatever its place. */
  lemma {:induction false} LeavesFlat(t: Tree)
    ensures FlatOf(Leaves(t)) == Flat(t)
    decreases t, 0
  {
    if t.Leaf? {
      FlatOne(t);
    } else {
      LeavesFlatOf(t.kids);
    }
  }

  lemma {:induction false} LeavesFlatOf(ts: seq<Tree>)
    ensures FlatOf(LeavesOf(ts)) == FlatOf(ts)
    decreases ts, 1
  {
    if ts != [] {
      LeavesFlat(ts[0]);
      LeavesFlatOf(ts[1..]);
      FlatConcat(Leaves(ts[0]), LeavesOf(ts[1..]));
    }
  }

  /** One step down the search path, seen on the list of leaves. */
  lemma {:induction false} PathStep(pages: Pages, t: Tree, pos: nat, k: Key, a: seq<Tree>, b: seq<Tree>, ls: seq<Tree>,
                                    n: nat, h: nat, lo: real, hi: real, nxt: Option<nat>)
    returns (a': seq<Tree>, b': seq<Tree>)
    requires t.Branch? && Good(pages, t, n, h, lo, hi, nxt) && pos < |t.kids| == |t.keys| + 1
    requires Lower(t.keys, lo, pos) <= Rank(k) < Upper(t.keys, hi, pos)
    requires ls == a + Leaves(t) + b && AllBelow(FlatOf(a), k) && AllAbove(FlatOf(b), k)
    ensures ls == a' + Leaves(t.kids[pos]) + b' && AllBelow(FlatOf(a'), k) && AllAbove(FlatOf(b'), k)
  {
    hide Good, GoodForest, FlatOf, LeavesOf, SortedKeys, AllOccupied, BranchPage;
    NodeKind(pages, t, n, h, lo, hi, nxt);
    Sides(pages, t.keys, t.kids, pos, k, n, h - 1, lo, hi, nxt);
    LeavesAround(t.kids, pos);
    var la, lb := LeavesOf(t.kids[..pos]), LeavesOf(t.kids[pos + 1..]);
    LeavesFlatOf(t.kids[..pos]);
    LeavesFlatOf(t.kids[pos + 1..]);
    FlatConcat(a, la);
    FlatConcat(lb, b);
    a', b' := a + la, lb + b;
    assert ls == a' + Leaves(t.kids[pos]) + b';
  }

  /** Records from the first one above `b` on add nothing to the interval. */
  lemma {:induction false} NothingBeyond(s: seq<Record>, j: nat, a: Key, b: Key)
    requires Ascending(s) && j < |s| && Rank(b) < Rank(s[j].key)
    ensures Between(s, a, b) == Between(s[..j], a, b)
  {
    assert s == s[..j] + s[j..];
    BetweenConcat(s[..j], s[j..], a, b);
    BetweenOutside(s[j..], a, b);
  }

  lemma {:induction false} BetweenSnoc(s: seq<Record>, j: nat, a: Key, b: Key)
    requires j < |s|
    ensures Between(s[..j + 1], a, b) ==
      Between(s[..j], a, b) + (if AtMost(a, s[j].key) && AtMost(s[j].key, b) then [s[j]] else [])
  {
    assert s[..j + 1] == s[..j] + [s[j]];
    BetweenConcat(s[..j], [s[j]], a, b);
    assert Between([s[j]], a, b) == (if AtMost(a, s[j].key) && AtMost(s[j].key, b) then [s[j]] else [])
        + Between([], a, b);
  }

  /** The contents of the leaves up to and including number `k`. */
  lemma {:induction false} FlatSnoc(ls: seq<Tree>, k: nat)
    requires k < |ls|
    ensures FlatOf(ls[..k + 1]) == FlatOf(ls[..k]) + Flat(ls[k])
    ensures FlatOf(ls) == FlatOf(ls[..k]) + Flat(ls[k]) + FlatOf(ls[k + 1..])
  {
    hide Flat;
    assert ls[..k + 1] == ls[..k] + [ls[k]];
    FlatConcat(ls[..k], [ls[k]]);
    FlatOne(ls[k]);
    SplitAround(ls, k);
  }

  lemma {:induction false} FlatAround(a: seq<Tree>, leaf: Tree, b: seq<Tree>)
    ensures FlatOf(a + [leaf] + b) == FlatOf(a) + Flat(leaf) + FlatOf(b)
  {
    FlatConcat(a + [leaf], b);
    FlatConcat(a, [leaf]);
    FlatOne(leaf);
  }

  lemma {:induction false} NothingThere(k: Key)
    ensures AllBelow(FlatOf([]), k) && AllAbove(FlatOf([]), k)
  {
  }

  lemma {:induction false} NoRecords()
    ensures Ascending([])
  {
  }

  lemma {:induction false} BelowInterval(s: seq<Record>, a: Key, b: Key)
    requires AllBelow(s, a)
    ensures Between(s, a, b) == []
  {
    BetweenOutside(s, a, b);
  }
}
