/** What the representation invariant says of every node, path by path. */
module TreeInvariants {
  import opened Keys
  import opened Records
  import opened Trees
  import opened TreeSteps
  import opened TreeScan

  /** The node that following child numbers `path` from the root of `t` leads to. */
  ghost function NodeAt(t: Tree, path: seq<nat>): Option<Tree> {
    if path == [] then Some(t)
    else if t.Leaf? || path[0] >= |t.kids| then None
    else NodeAt(t.kids[path[0]], path[1..])
  }

  /** The keys below child `i` lie from separator i-1 on and strictly below separator i. */
  ghost predicate Separates(keys: seq<Key>, kids: seq<Tree>, i: nat)
    requires i < |kids| == |keys| + 1
  {
    forall x :: x in Flat(kids[i]) ==>
      (i > 0 ==> AtMost(keys[i - 1], x.key)) && (i < |keys| ==> Less(x.key, keys[i]))
  }

  /** Balance, order and occupancy at every path: leaves are exactly the nodes at depth `h`;
      a branch has one child more than keys and its separators bound its subtrees; below the
      root a leaf holds (n-1)/2 to n-2 records, a branch n-2-(n-1)/2 to 2((n-1)/2) keys. */
  lemma {:induction false} EveryNode(pages: Pages, t: Tree, n: nat, h: nat, lo: real, hi: real, nxt: Option<nat>,
      path: seq<nat>)
    requires Good(pages, t, n, h, lo, hi, nxt) && NodeAt(t, path).Some?
    ensures var u := NodeAt(t, path).value;
      && |path| <= h && (u.Leaf? <==> |path| == h)
      && (path != [] && u.Leaf? ==> (n - 1) / 2 <= |u.recs| <= n - 2)
      && (path != [] && u.Branch? ==> n - 2 - (n - 1) / 2 <= |u.keys| <= (n - 1) / 2 * 2)
      && (u.Branch? ==> |u.kids| == |u.keys| + 1)
      && (u.Branch? ==> forall i :: 0 <= i < |u.kids| ==> Separates(u.keys, u.kids, i))
    decreases h
  {
    hide Good, GoodForest, IdsOf, Ids, Flat, AllOccupied, SortedKeys, BranchPage, LeafPage, Ascending, Within;
    NodeKind(pages, t, n, h, lo, hi, nxt);
    if path == [] {
      if t.Branch? {
        forall i | 0 <= i < |t.kids|
          ensures Separates(t.keys, t.kids, i)
        {
          Bounded(pages, t.keys, t.kids, i, n, h - 1, lo, hi, nxt);
        }
      }
    } else {
      var i := path[0];
      var c := t.kids[i];
      Member(pages, t.keys, t.kids, i, n, h - 1, lo, hi, nxt);
      KidOccupied(t.kids, i, n);
      EveryNode(pages, c, n, h - 1, Lower(t.keys, lo, i), Upper(t.keys, hi, i), Next(t.kids, i, nxt), path[1..]);
    }
  }

  lemma {:induction false} KidOccupied(ts: seq<Tree>, i: nat, n: nat)
    requires AllOccupied(ts, n) && i < |ts|
    ensures ts[i].Leaf? ==> (n - 1) / 2 <= |ts[i].recs| <= n - 2
    ensures ts[i].Branch? ==> n - 2 - (n - 1) / 2 <= |ts[i].keys| <= (n - 1) / 2 * 2
  {
    assert Occupied(ts[i], n);
  }

  lemma {:induction false} Bounded(pages: Pages, ks: seq<Key>, ts: seq<Tree>, i: nat, n: nat, h: nat, lo: real,
      hi: real, nxt: Option<nat>)
    requires GoodForest(pages, ks, ts, n, h, lo, hi, nxt) && i < |ts| == |ks| + 1
    ensures Separates(ks, ts, i)
  {
    hide Good, GoodForest, Flat, IdsOf, Ids, Ascending;
    Member(pages, ks, ts, i, n, h, lo, hi, nxt);
    FlatOrdered(pages, ts[i], n, h, Lower(ks, lo, i), Upper(ks, hi, i), Next(ts, i, nxt));
    var s := Flat(ts[i]);
    forall x | x in s
      ensures (i > 0 ==> AtMost(ks[i - 1], x.key)) && (i < |ks| ==> Less(x.key, ks[i]))
    {
      var j :| 0 <= j < |s| && s[j] == x;
      assert Lower(ks, lo, i) <= Rank(s[j].key) < Upper(ks, hi, i);
    }
  }

  /** For an even order the two bounds agree: (n-1)/2 to n-2 keys in every node below the root. */
  lemma {:induction false} EvenOrder(pages: Pages, t: Tree, n: nat, h: nat, lo: real, hi: real, nxt: Option<nat>,
      path: seq<nat>)
    requires Good(pages, t, n, h, lo, hi, nxt) && NodeAt(t, path).Some? && path != [] && n % 2 == 0 && n >= 4
    ensures (n - 1) / 2 <= KeyCount(NodeAt(t, path).value) <= n - 2
  {
    hide Good;
    EveryNode(pages, t, n, h, lo, hi, nxt, path);
  }

  /** Splitting a full branch leaves its right half without a key exactly at order 3. */
  lemma {:induction false} KeylessHalf(n: nat, keys: seq<Key>)
    requires n >= 3 && |keys| == n - 1
    ensures keys[|keys| / 2 + 1..] == [] <==> n == 3
  {
  }
}
