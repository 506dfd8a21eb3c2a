/** Which nodes fit a page: how long keys and values may be, and what a tree writes when it keeps to
    that (src/btree/tree.rs, src/pager/codec.rs). */
module NodeSizes {
  import opened Keys
  import opened Records
  import opened Wire
  import opened Trees
  import opened TreeSteps
  import opened Codec

  /** The most bytes that a key takes on a page, and a value without its length. */
  datatype Limits = Limits(keyBytes: nat, valueBytes: nat)

  predicate KeySized(k: Key, l: Limits) { |KeyBytes(k)| <= l.keyBytes }

  predicate RecordSized(r: Record, l: Limits) { KeySized(r.key, l) && |r.value| <= l.valueBytes }

  /** A node reads back from its page. */
  predicate Fits(node: Node) { WellFormed(node) && |NodeBytes(node)| <= PAGE_SIZE }

  /** The most keys a branch has at any moment: before it is split it has one more than is allowed. */
  function BranchMax(n: nat): int { (n - 1) / 2 * 2 + 1 }

  /** Enough for every node that operations on a tree of order `n` write, overfull ones included. */
  predicate PageBound(n: nat, l: Limits) {
    && 3 <= n < 0x1_0000_0000 && l.keyBytes < 0x1_0000_0000 && l.valueBytes < 0x1_0000_0000
    && 9 + (n - 1) * (l.keyBytes + 4 + l.valueBytes) <= PAGE_SIZE
    && 9 + BranchMax(n) * (l.keyBytes + 4) + 4 <= PAGE_SIZE
  }

  /** A leaf or a branch by its lists, keys and values within the limits, page numbers within u32. */
  ghost predicate Formed(node: Node, l: Limits) {
    && (forall i :: 0 <= i < |node.keys| ==> KeySized(node.keys[i], l))
    && (node.nextLeaf.Some? ==> node.nextLeaf.value < NONE_PAGE)
    && if node.IsLeaf() then
         && node.children == [] && |node.records| == |node.keys|
         && forall i :: 0 <= i < |node.keys| ==> node.records[i].key == node.keys[i] && RecordSized(node.records[i], l)
       else
         && node.records == [] && |node.children| == |node.keys| + 1
         && forall i :: 0 <= i < |node.children| ==> node.children[i] < NONE_PAGE
  }

  /** The same where there are limits: a store that keeps nodes as they are has none. */
  ghost predicate Small(node: Node, room: Option<Limits>) { room.Some? ==> Formed(node, room.value) }

  ghost predicate SmallKey(k: Key, room: Option<Limits>) { room.Some? ==> KeySized(k, room.value) }

  ghost predicate SmallRecord(r: Record, room: Option<Limits>) { room.Some? ==> RecordSized(r, room.value) }

  ghost predicate SmallId(id: nat, room: Option<Limits>) { room.Some? ==> id < NONE_PAGE }

  /** No more keys than a node of a tree of order `n` has at any moment. */
  ghost predicate Counted(node: Node, n: nat) { |node.keys| <= if node.IsLeaf() then n - 1 else BranchMax(n) }

  // ------------------------------------------------------------------
  // Within the limits a node fits.
  // ------------------------------------------------------------------

  lemma {:induction false} KeysLength(ks: seq<Key>, l: Limits)
    requires forall i :: 0 <= i < |ks| ==> KeySized(ks[i], l)
    ensures |KeysBytes(ks)| <= |ks| * l.keyBytes
  {
    hide KeyBytes;
    if ks != [] {
      KeysLength(ks[1..], l);
      assert KeySized(ks[0], l);
      assert |ks| * l.keyBytes == l.keyBytes + (|ks| - 1) * l.keyBytes;
    }
  }

  lemma {:induction false} ValuesLength(rs: seq<Record>, valueBytes: nat)
    requires valueBytes < 0x1_0000_0000 && forall i :: 0 <= i < |rs| ==> |rs[i].value| <= valueBytes
    ensures |ValuesBytes(rs)| <= |rs| * (4 + valueBytes)
  {
    hide PutBytes;
    if rs != [] {
      ValuesLength(rs[1..], valueBytes);
      PutLength(rs[0].value);
      var each := 4 + valueBytes;
      assert |rs| * each == (|rs| - 1) * each + each;
    }
  }

  lemma {:induction false} PutLength(data: Bytes)
    requires |data| < 0x1_0000_0000
    ensures |PutBytes(data)| == 4 + |data|
  {
  }

  lemma {:induction false} ChildrenLength(cs: seq<nat>)
    ensures |ChildrenBytes(cs)| == 4 * |cs|
  {
    hide PutU32;
    if cs != [] {
      ChildrenLength(cs[1..]);
    }
  }

  lemma {:induction false} ShortText(k: Key, l: Limits)
    requires KeySized(k, l) && l.keyBytes < 0x1_0000_0000
    ensures k.Text? ==> |Utf8(k.s)| < 0x1_0000_0000
  {
    hide Utf8, PutU32;
    if k.Text? {
      assert |PutBytes(Utf8(k.s))| >= |Utf8(k.s)|;
    }
  }

  lemma {:induction false} Product(m: nat, k: nat, a: nat, b: nat)
    requires m <= k
    ensures m * a + m * b == m * (a + b) <= k * (a + b)
  {
  }

  /** A node of at most `most` keys within the limits fits if that many keys, with values or children, do. */
  lemma {:induction false} ShortFits(node: Node, most: nat, l: Limits)
    requires Formed(node, l) && |node.keys| <= most < 0x1_0000_0000
    requires l.keyBytes < 0x1_0000_0000 && l.valueBytes < 0x1_0000_0000
    requires 9 + (if node.IsLeaf() then most * (l.keyBytes + 4 + l.valueBytes) else most * (l.keyBytes + 4) + 4)
      <= PAGE_SIZE
    ensures Fits(node)
  {
    hide KeysBytes, ValuesBytes, ChildrenBytes, Head, KeyBytes, Utf8;
    forall i | 0 <= i < |node.keys|
      ensures KeySized(node.keys[i], l) && (node.keys[i].Text? ==> |Utf8(node.keys[i].s)| < 0x1_0000_0000)
    {
      ShortText(node.keys[i], l);
    }
    KeysLength(node.keys, l);
    if node.IsLeaf() {
      forall i | 0 <= i < |node.records|
        ensures |node.records[i].value| <= l.valueBytes
      {
        assert RecordSized(node.records[i], l);
      }
      ValuesLength(node.records, l.valueBytes);
      Product(|node.keys|, most, l.keyBytes, 4 + l.valueBytes);
    } else {
      ChildrenLength(node.children);
      Product(|node.keys|, most, l.keyBytes, 4);
    }
  }

  /** Every node within the limits and the counts fits. */
  lemma {:induction false} NodeFits(node: Node, n: nat, l: Limits)
    requires Formed(node, l) && Counted(node, n) && PageBound(n, l)
    ensures Fits(node)
  {
    hide Fits, Formed;
    if node.IsLeaf() {
      ShortFits(node, n - 1, l);
    } else {
      ShortFits(node, BranchMax(n), l);
    }
  }

  // ------------------------------------------------------------------
  // What the operations make of small nodes is small.
  // ------------------------------------------------------------------

  lemma {:induction false} SmallEmpty(room: Option<Limits>)
    ensures Small(EmptyLeaf(), room)
  {
  }

  lemma {:induction false} SmallKeyAt(node: Node, i: nat, room: Option<Limits>)
    requires Small(node, room) && i < |node.keys|
    ensures SmallKey(node.keys[i], room)
  {
  }

  lemma {:induction false} SmallRoot(key: Key, left: nat, right: nat, room: Option<Limits>)
    requires SmallKey(key, room) && SmallId(left, room) && SmallId(right, room)
    ensures Small(EmptyInternal().(keys := [key], children := [left, right]), room)
  {
  }

  lemma {:induction false} SmallPut(leaf: Node, pos: nat, r: Record, room: Option<Limits>)
    requires leaf.IsLeaf() && Small(leaf, room) && SmallRecord(r, room) && pos <= |leaf.keys| == |leaf.records|
    ensures Small(leaf.(keys := InsertAt(leaf.keys, pos, r.key), records := InsertAt(leaf.records, pos, r)), room)
  {
    hide KeyBytes;
  }

  lemma {:induction false} SmallSet(leaf: Node, pos: nat, r: Record, room: Option<Limits>)
    requires leaf.IsLeaf() && Small(leaf, room) && SmallRecord(r, room) && pos < |leaf.keys| == |leaf.records|
    requires leaf.keys[pos] == r.key
    ensures Small(leaf.(records := leaf.records[pos := r]), room)
  {
  }

  lemma {:induction false} SmallDrop(leaf: Node, pos: nat, room: Option<Limits>)
    requires leaf.IsLeaf() && Small(leaf, room) && pos < |leaf.keys| == |leaf.records|
    ensures Small(leaf.(keys := RemoveAt(leaf.keys, pos), records := RemoveAt(leaf.records, pos)), room)
  {
    hide KeyBytes;
  }

  lemma {:induction false} SmallLeafHalves(leaf: Node, mid: nat, rid: nat, room: Option<Limits>)
    requires leaf.IsLeaf() && Small(leaf, room) && mid <= |leaf.keys| == |leaf.records| && SmallId(rid, room)
    ensures Small(leaf.(keys := leaf.keys[..mid], records := leaf.records[..mid], nextLeaf := Some(rid)), room)
    ensures Small(EmptyLeaf().(keys := leaf.keys[mid..], records := leaf.records[mid..], nextLeaf := leaf.nextLeaf),
                  room)
  {
    hide KeyBytes;
  }

  lemma {:induction false} SmallChild(node: Node, pos: nat, key: Key, id: nat, room: Option<Limits>)
    requires !node.IsLeaf() && Small(node, room) && SmallKey(key, room) && SmallId(id, room)
    requires pos <= |node.keys| && |node.children| == |node.keys| + 1
    ensures Small(node.(keys := InsertAt(node.keys, pos, key), children := InsertAt(node.children, pos + 1, id)), room)
  {
    hide KeyBytes;
  }

  lemma {:induction false} SmallBranchHalves(node: Node, mid: nat, room: Option<Limits>)
    requires !node.IsLeaf() && Small(node, room) && mid < |node.keys| && |node.children| == |node.keys| + 1
    ensures Small(node.(keys := node.keys[..mid], children := node.children[..mid + 1]), room)
    ensures Small(EmptyInternal().(keys := node.keys[mid + 1..], children := node.children[mid + 1..]), room)
  {
    hide KeyBytes;
  }

  lemma {:induction false} SmallSeparator(node: Node, i: nat, key: Key, room: Option<Limits>)
    requires !node.IsLeaf() && Small(node, room) && SmallKey(key, room) && i < |node.keys|
    ensures Small(node.(keys := node.keys[i := key]), room)
  {
  }

  lemma {:induction false} SmallWithout(node: Node, i: nat, room: Option<Limits>)
    requires !node.IsLeaf() && Small(node, room) && i < |node.keys| && |node.children| == |node.keys| + 1
    ensures Small(node.(keys := RemoveAt(node.keys, i), children := RemoveAt(node.children, i + 1)), room)
  {
    hide KeyBytes;
  }

  lemma {:induction false} SmallShift(left: Node, right: Node, sep: Key, room: Option<Limits>)
    requires Small(left, room) && Small(right, room) && SmallKey(sep, room) && right.keys != []
    requires left.IsLeaf() <==> right.IsLeaf()
    requires right.IsLeaf() ==> |right.records| == |right.keys|
    requires !right.IsLeaf() ==> |right.children| == |right.keys| + 1
    ensures right.IsLeaf() ==>
      && Small(right.(keys := right.keys[1..], records := right.records[1..]), room)
      && Small(left.(keys := left.keys + [right.keys[0]], records := left.records + [right.records[0]]), room)
    ensures !right.IsLeaf() ==>
      && Small(right.(keys := right.keys[1..], children := right.children[1..]), room)
      && Small(left.(keys := left.keys + [sep], children := left.children + [right.children[0]]), room)
  {
    hide KeyBytes;
  }

  lemma {:induction false} SmallShiftBack(left: Node, right: Node, sep: Key, room: Option<Limits>)
    requires Small(left, room) && Small(right, room) && SmallKey(sep, room) && left.keys != []
    requires left.IsLeaf() <==> right.IsLeaf()
    requires left.IsLeaf() ==> |left.records| == |left.keys|
    requires !left.IsLeaf() ==> |left.children| == |left.keys| + 1
    ensures var last := |left.keys| - 1;
      && (left.IsLeaf() ==>
          && Small(left.(keys := left.keys[..last], records := left.records[..last]), room)
          && Small(right.(keys := [left.keys[last]] + right.keys, records := [left.records[last]] + right.records),
              room))
      && (!left.IsLeaf() ==>
          && Small(left.(keys := left.keys[..last], children := left.children[..last + 1]), room)
          && Small(right.(keys := [sep] + right.keys, children := [left.children[last + 1]] + right.children), room))
  {
    hide KeyBytes;
  }

  lemma {:induction false} SmallJoin(left: Node, right: Node, sep: Key, room: Option<Limits>)
    requires Small(left, room) && Small(right, room) && SmallKey(sep, room)
    requires left.IsLeaf() <==> right.IsLeaf()
    ensures left.IsLeaf() ==>
      Small(left.(keys := left.keys + right.keys, records := left.records + right.records,
                  nextLeaf := right.nextLeaf), room)
    ensures !left.IsLeaf() ==>
      Small(left.(keys := left.keys + [sep] + right.keys, children := left.children + right.children), room)
  {
    hide KeyBytes;
  }

  /** A node that a tree of order `n` may write. */
  ghost predicate Writable(node: Node, n: nat, room: Option<Limits>) { Small(node, room) && Counted(node, n) }

  lemma {:induction false} CountedDrop(leaf: Node, pos: nat, n: nat)
    requires leaf.IsLeaf() && pos < |leaf.keys| == |leaf.records| && |leaf.keys| <= n - 1
    ensures Counted(leaf.(keys := RemoveAt(leaf.keys, pos), records := RemoveAt(leaf.records, pos)), n)
  {
  }

  /** A branch and two neighbouring children, as rebalancing reads them. */
  ghost predicate Trio(pn: Node, left: Node, right: Node, i: nat, n: nat, room: Option<Limits>) {
    && !pn.IsLeaf() && Writable(pn, n, room) && i < |pn.keys| && |pn.children| == |pn.keys| + 1
    && Small(left, room) && Small(right, room) && (left.IsLeaf() <==> right.IsLeaf())
    && (if left.IsLeaf() then |left.records| == |left.keys| && |right.records| == |right.keys|
        else |left.children| == |left.keys| + 1 && |right.children| == |right.keys| + 1)
  }

  lemma {:induction false} LendLeft(pn: Node, left: Node, right: Node, i: nat, n: nat, room: Option<Limits>)
    requires Trio(pn, left, right, i, n, room) && n >= 3 && |left.keys| < (n - 1) / 2 < |right.keys|
    requires |right.keys| <= (if left.IsLeaf() then n - 2 else BranchMax(n) - 1)
    ensures right.IsLeaf() ==>
      && Writable(right.(keys := right.keys[1..], records := right.records[1..]), n, room)
      && Writable(pn.(keys := pn.keys[i := right.keys[1..][0]]), n, room)
      && Writable(left.(keys := left.keys + [right.keys[0]], records := left.records + [right.records[0]]), n, room)
    ensures !right.IsLeaf() ==>
      && Writable(right.(keys := right.keys[1..], children := right.children[1..]), n, room)
      && Writable(pn.(keys := pn.keys[i := right.keys[0]]), n, room)
      && Writable(left.(keys := left.keys + [pn.keys[i]], children := left.children + [right.children[0]]), n, room)
  {
    hide Small;
    SmallKeyAt(pn, i, room);
    SmallKeyAt(right, 0, room);
    SmallKeyAt(right, 1, room);
    SmallShift(left, right, pn.keys[i], room);
    SmallSeparator(pn, i, right.keys[0], room);
    SmallSeparator(pn, i, right.keys[1], room);
  }

  lemma {:induction false} LendRight(pn: Node, left: Node, right: Node, i: nat, n: nat, room: Option<Limits>)
    requires Trio(pn, left, right, i, n, room) && n >= 3 && |right.keys| < (n - 1) / 2 < |left.keys|
    requires |left.keys| <= (if left.IsLeaf() then n - 2 else BranchMax(n) - 1)
    ensures var last := |left.keys| - 1; Writable(pn.(keys := pn.keys[i := left.keys[last]]), n, room)
    ensures var last := |left.keys| - 1; left.IsLeaf() ==>
      && Writable(left.(keys := left.keys[..last], records := left.records[..last]), n, room)
      && Writable(right.(keys := [left.keys[last]] + right.keys, records := [left.records[last]] + right.records),
                  n, room)
    ensures var last := |left.keys| - 1; !left.IsLeaf() ==>
      && Writable(left.(keys := left.keys[..last], children := left.children[..last + 1]), n, room)
      && Writable(right.(keys := [pn.keys[i]] + right.keys, children := [left.children[last + 1]] + right.children),
                  n, room)
  {
    hide Small, Counted;
    SmallKeyAt(pn, i, room);
    SmallKeyAt(left, |left.keys| - 1, room);
    SmallShiftBack(left, right, pn.keys[i], room);
    SmallSeparator(pn, i, left.keys[|left.keys| - 1], room);
    CountedLend(pn, left, right, i, n, room);
  }

  lemma {:induction false} CountedLend(pn: Node, left: Node, right: Node, i: nat, n: nat, room: Option<Limits>)
    requires Trio(pn, left, right, i, n, room) && n >= 3 && |right.keys| < (n - 1) / 2 < |left.keys|
    requires |left.keys| <= (if left.IsLeaf() then n - 2 else BranchMax(n) - 1)
    ensures var last := |left.keys| - 1; Counted(pn.(keys := pn.keys[i := left.keys[last]]), n)
    ensures var last := |left.keys| - 1; left.IsLeaf() ==>
      && Counted(left.(keys := left.keys[..last], records := left.records[..last]), n)
      && Counted(right.(keys := [left.keys[last]] + right.keys, records := [left.records[last]] + right.records), n)
    ensures var last := |left.keys| - 1; !left.IsLeaf() ==>
      && Counted(left.(keys := left.keys[..last], children := left.children[..last + 1]), n)
      && Counted(right.(keys := [pn.keys[i]] + right.keys, children := [left.children[last + 1]] + right.children), n)
  {
    hide Small;
  }

  lemma {:induction false} Joined(pn: Node, left: Node, right: Node, i: nat, n: nat, room: Option<Limits>)
    requires Trio(pn, left, right, i, n, room) && n >= 3 && |left.keys| + |right.keys| < (n - 1) / 2 * 2
    ensures Writable(pn.(keys := RemoveAt(pn.keys, i), children := RemoveAt(pn.children, i + 1)), n, room)
    ensures left.IsLeaf() ==>
      Writable(left.(keys := left.keys + right.keys, records := left.records + right.records,
                     nextLeaf := right.nextLeaf), n, room)
    ensures !left.IsLeaf() ==>
      Writable(left.(keys := left.keys + [pn.keys[i]] + right.keys, children := left.children + right.children),
               n, room)
  {
    hide Small;
    SmallKeyAt(pn, i, room);
    SmallJoin(left, right, pn.keys[i], room);
    SmallWithout(pn, i, room);
  }
}
