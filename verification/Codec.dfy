/** Nodes as fixed-size pages (src/pager/codec.rs). */
module Codec {
  import opened Keys
  import opened Records
  import opened Trees
  import opened Wire

  const PAGE_SIZE: nat := 4096
  const NONE_PAGE: U32 := 0xFFFF_FFFF

  // ------------------------------------------------------------------
  // The bytes of a node.
  // ------------------------------------------------------------------

  function KeyBytes(k: Key): (bs: Bytes)
    ensures bs != []
  {
    match k
    case Integer(v) => [0] + PutI64(v)
    case Text(s) => [1] + PutBytes(Utf8(s))
  }

  function KeysBytes(ks: seq<Key>): Bytes {
    if ks == [] then [] else KeyBytes(ks[0]) + KeysBytes(ks[1..])
  }

  function ValuesBytes(rs: seq<Record>): Bytes {
    if rs == [] then [] else PutBytes(rs[0].value) + ValuesBytes(rs[1..])
  }

  function ChildrenBytes(cs: seq<nat>): Bytes {
    if cs == [] then [] else PutU32(AsU32(cs[0])) + ChildrenBytes(cs[1..])
  }

  function NextBytes(next: Option<nat>): (bs: Bytes)
    ensures |bs| == 4
  {
    PutU32(if next.Some? then AsU32(next.value) else NONE_PAGE)
  }

  function Body(node: Node): Bytes {
    if node.IsLeaf() then ValuesBytes(node.records) else ChildrenBytes(node.children)
  }

  function Head(node: Node): (bs: Bytes)
    ensures |bs| == 9
  {
    [if node.IsLeaf() then 1 else 0] + PutU32(AsU32(|node.keys|)) + NextBytes(node.nextLeaf)
  }

  function NodeBytes(node: Node): Bytes {
    Head(node) + KeysBytes(node.keys) + Body(node)
  }

  /** Padding with zeros, or cutting, to the page size. */
  function Resized(bs: Bytes): (page: Bytes)
    ensures |page| == PAGE_SIZE
  {
    if |bs| >= PAGE_SIZE then bs[..PAGE_SIZE] else bs + seq(PAGE_SIZE - |bs|, i => 0)
  }

  /** The nodes the tree builds: lengths and page numbers within their u32 fields. */
  predicate WellFormed(node: Node) {
    && |node.keys| < 0x1_0000_0000 && (node.nextLeaf.Some? ==> node.nextLeaf.value < NONE_PAGE)
    && (forall i :: 0 <= i < |node.keys| && node.keys[i].Text? ==> |Utf8(node.keys[i].s)| < 0x1_0000_0000)
    && if node.IsLeaf() then
         && node.children == [] && |node.records| == |node.keys|
         && forall i ::
             0 <= i < |node.records| ==> node.records[i].key == node.keys[i] && |node.records[i].value| < 0x1_0000_0000
       else
         && node.records == [] && |node.children| == |node.keys| + 1
         && forall i :: 0 <= i < |node.children| ==> node.children[i] < 0x1_0000_0000
  }

  // ------------------------------------------------------------------
  // Reading a page back.  None is where the source panics.
  // ------------------------------------------------------------------

  function GetKey(buf: Bytes): (r: Option<(Key, nat)>)
    ensures r.Some? ==> 0 < r.value.1 <= |buf|
  {
    if buf == [] then None
    else if buf[0] == 0 then
      var v := GetI64(buf[1..]);
      if v.None? then None else Some((Integer(v.value), 9))
    else
      var b := GetBytes(buf[1..]);
      if b.None? then None
      else
        var s := FromUtf8(b.value.0);
        if s.None? then None else Some((Text(s.value), 1 + b.value.1))
  }

  function GetKeys(buf: Bytes, n: nat): (r: Option<(seq<Key>, nat)>)
    ensures r.Some? ==> |r.value.0| == n && r.value.1 <= |buf|
  {
    if n == 0 then Some(([], 0))
    else
      var k := GetKey(buf);
      if k.None? then None
      else
        var rest := GetKeys(buf[k.value.1..], n - 1);
        if rest.None? then None else Some(([k.value.0] + rest.value.0, k.value.1 + rest.value.1))
  }

  function GetValues(buf: Bytes, ks: seq<Key>): (r: Option<(seq<Record>, nat)>)
    ensures r.Some? ==> |r.value.0| == |ks| && r.value.1 <= |buf|
  {
    if ks == [] then Some(([], 0))
    else
      var b := GetBytes(buf);
      if b.None? then None
      else
        var rest := GetValues(buf[b.value.1..], ks[1..]);
        if rest.None? then None else Some(([Record(ks[0], b.value.0)] + rest.value.0, b.value.1 + rest.value.1))
  }

  function GetChildren(buf: Bytes, n: nat): (r: Option<(seq<nat>, nat)>)
    ensures r.Some? ==> |r.value.0| == n && r.value.1 == 4 * n <= |buf|
  {
    if n == 0 then Some(([], 0))
    else
      var c := GetU32(buf);
      if c.None? then None
      else
        var rest := GetChildren(buf[4..], n - 1);
        if rest.None? then None else Some(([c.value] + rest.value.0, 4 + rest.value.1))
  }

  function Decoded(page: Bytes): Option<Node> {
    if |page| < 9 then None
    else
      var leaf := page[0] != 0;
      var n := GetU32(page[1..]).value;
      var raw := GetU32(page[5..]).value;
      var next := if raw == NONE_PAGE then None else Some(raw as nat);
      var ks := GetKeys(page[9..], n);
      if ks.None? then None
      else
        var rest := page[9 + ks.value.1..];
        if leaf then
          var rs := GetValues(rest, ks.value.0);
          if rs.None? then None else Some(Node(LeafNode, ks.value.0, [], rs.value.0, next))
        else
          var cs := GetChildren(rest, n + 1);
          if cs.None? then None else Some(Node(InternalNode, ks.value.0, cs.value.0, [], next))
  }

  // ------------------------------------------------------------------
  // Field by field, reading undoes writing whatever follows.
  // ------------------------------------------------------------------

  lemma {:induction false} KeyRoundTrip(k: Key, rest: Bytes)
    requires k.Text? ==> |Utf8(k.s)| < 0x1_0000_0000
    ensures GetKey(KeyBytes(k) + rest) == Some((k, |KeyBytes(k)|))
  {
    hide PutI64, GetI64, PutBytes, GetBytes, Utf8, FromUtf8;
    var buf := KeyBytes(k) + rest;
    match k
    case Integer(v) =>
      assert buf[1..] == PutI64(v) + rest;
      I64RoundTrip(v, rest);
    case Text(s) =>
      assert buf[1..] == PutBytes(Utf8(s)) + rest;
      BytesRoundTrip(Utf8(s), rest);
      BytesLength(Utf8(s));
      Utf8RoundTrip(s);
  }

  lemma {:induction false} KeysRoundTrip(ks: seq<Key>, rest: Bytes)
    requires forall i :: 0 <= i < |ks| && ks[i].Text? ==> |Utf8(ks[i].s)| < 0x1_0000_0000
    ensures GetKeys(KeysBytes(ks) + rest, |ks|) == Some((ks, |KeysBytes(ks)|))
  {
    hide GetKey, KeyBytes;
    if ks != [] {
      var buf := KeysBytes(ks) + rest;
      assert buf == KeyBytes(ks[0]) + (KeysBytes(ks[1..]) + rest);
      KeyRoundTrip(ks[0], KeysBytes(ks[1..]) + rest);
      assert buf[|KeyBytes(ks[0])|..] == KeysBytes(ks[1..]) + rest;
      KeysRoundTrip(ks[1..], rest);
      assert ks == [ks[0]] + ks[1..];
    }
  }

  lemma {:induction false} ValuesRoundTrip(rs: seq<Record>, ks: seq<Key>, rest: Bytes)
    requires |ks| == |rs|
    requires forall i :: 0 <= i < |rs| ==> rs[i].key == ks[i] && |rs[i].value| < 0x1_0000_0000
    ensures GetValues(ValuesBytes(rs) + rest, ks) == Some((rs, |ValuesBytes(rs)|))
  {
    hide GetBytes, PutBytes;
    if rs != [] {
      var buf, tail := ValuesBytes(rs) + rest, ValuesBytes(rs[1..]) + rest;
      assert buf == PutBytes(rs[0].value) + tail;
      BytesRoundTrip(rs[0].value, tail);
      BytesLength(rs[0].value);
      assert buf[|PutBytes(rs[0].value)|..] == tail;
      ValuesRoundTrip(rs[1..], ks[1..], rest);
      assert rs == [rs[0]] + rs[1..] && rs[0] == Record(ks[0], rs[0].value);
    }
  }

  lemma {:induction false} BytesLength(b: Bytes)
    ensures |PutBytes(b)| == 4 + |b|
  {
  }

  lemma {:induction false} ChildrenRoundTrip(cs: seq<nat>, rest: Bytes)
    requires forall i :: 0 <= i < |cs| ==> cs[i] < 0x1_0000_0000
    ensures GetChildren(ChildrenBytes(cs) + rest, |cs|) == Some((cs, |ChildrenBytes(cs)|))
  {
    hide GetU32, PutU32;
    if cs != [] {
      var buf, tail := ChildrenBytes(cs) + rest, ChildrenBytes(cs[1..]) + rest;
      assert buf == PutU32(cs[0]) + tail;
      U32RoundTrip(cs[0], tail);
      assert buf[4..] == tail;
      ChildrenRoundTrip(cs[1..], rest);
      assert cs == [cs[0]] + cs[1..];
    }
  }

  lemma {:induction false} HeadRoundTrip(node: Node, rest: Bytes)
    requires |node.keys| < 0x1_0000_0000 && (node.nextLeaf.Some? ==> node.nextLeaf.value < NONE_PAGE)
    ensures var page := Head(node) + rest;
      && (page[0] != 0 <==> node.IsLeaf()) && GetU32(page[1..]) == Some(|node.keys|)
      && (var raw := GetU32(page[5..]).value; (if raw == NONE_PAGE then None else Some(raw as nat)) == node.nextLeaf)
      && page[9..] == rest
  {
    hide GetU32, PutU32;
    var page := Head(node) + rest;
    var raw := if node.nextLeaf.Some? then AsU32(node.nextLeaf.value) else NONE_PAGE;
    assert page[1..] == PutU32(|node.keys|) + (NextBytes(node.nextLeaf) + rest);
    assert page[5..] == PutU32(raw) + rest;
    U32RoundTrip(|node.keys|, NextBytes(node.nextLeaf) + rest);
    U32RoundTrip(raw, rest);
    assert page[9..] == rest;
  }

  /** A page that begins with a node's bytes decodes to that node. */
  lemma {:induction false} PrefixDecodes(node: Node, rest: Bytes)
    requires WellFormed(node)
    ensures Decoded(NodeBytes(node) + rest) == Some(node)
  {
    hide GetU32, GetKeys, GetValues, GetChildren, KeysBytes, ValuesBytes, ChildrenBytes, Head;
    var page := NodeBytes(node) + rest;
    var tail := Body(node) + rest;
    assert page == Head(node) + (KeysBytes(node.keys) + tail);
    HeadRoundTrip(node, KeysBytes(node.keys) + tail);
    KeysRoundTrip(node.keys, tail);
    assert page[9 + |KeysBytes(node.keys)|..] == (KeysBytes(node.keys) + tail)[|KeysBytes(node.keys)|..] == tail;
    if node.IsLeaf() {
      ValuesRoundTrip(node.records, node.keys, rest);
    } else {
      ChildrenRoundTrip(node.children, rest);
    }
  }

  // ------------------------------------------------------------------
  // A decoded node takes exactly its own bytes, so an overfull node is lost.
  // ------------------------------------------------------------------

  lemma {:induction false} KeyTakes(buf: Bytes)
    requires GetKey(buf).Some?
    ensures |KeyBytes(GetKey(buf).value.0)| == GetKey(buf).value.1
  {
    if buf[0] != 0 {
      var b := GetBytes(buf[1..]).value;
      Utf8Canonical(b.0);
    }
  }

  lemma {:induction false} KeysTake(buf: Bytes, n: nat)
    requires GetKeys(buf, n).Some?
    ensures |KeysBytes(GetKeys(buf, n).value.0)| == GetKeys(buf, n).value.1
  {
    hide GetKey, KeyBytes;
    if n > 0 {
      KeyTakes(buf);
      var k := GetKey(buf).value;
      KeysTake(buf[k.1..], n - 1);
      var ks := GetKeys(buf, n).value.0;
      assert ks[0] == k.0 && ks[1..] == GetKeys(buf[k.1..], n - 1).value.0;
    }
  }

  lemma {:induction false} ValuesTake(buf: Bytes, ks: seq<Key>)
    requires GetValues(buf, ks).Some?
    ensures |ValuesBytes(GetValues(buf, ks).value.0)| == GetValues(buf, ks).value.1
  {
    hide GetBytes, PutBytes;
    if ks != [] {
      var b := GetBytes(buf).value;
      ValuesTake(buf[b.1..], ks[1..]);
      BytesLength(b.0);
      var rs := GetValues(buf, ks).value.0;
      assert rs[0] == Record(ks[0], b.0) && rs[1..] == GetValues(buf[b.1..], ks[1..]).value.0;
    }
  }

  lemma {:induction false} ChildrenTake(cs: seq<nat>)
    ensures |ChildrenBytes(cs)| == 4 * |cs|
  {
    if cs != [] {
      ChildrenTake(cs[1..]);
    }
  }

  lemma {:induction false} DecodedFits(page: Bytes)
    requires Decoded(page).Some?
    ensures |NodeBytes(Decoded(page).value)| <= |page|
  {
    hide GetU32, GetKeys, GetValues, GetChildren, KeysBytes, ValuesBytes, ChildrenBytes, Head;
    var n: nat := GetU32(page[1..]).value;
    KeysTake(page[9..], n);
    var ks := GetKeys(page[9..], n).value;
    var rest := page[9 + ks.1..];
    if page[0] != 0 {
      ValuesTake(rest, ks.0);
    } else {
      ChildrenTake(GetChildren(rest, n + 1).value.0);
    }
  }

  /** A page gives back the node written to it exactly when the node fits into the page. */
  lemma {:induction false} PageRoundTrip(node: Node)
    requires WellFormed(node)
    ensures Decoded(Resized(NodeBytes(node))) == Some(node) <==> |NodeBytes(node)| <= PAGE_SIZE
  {
    hide Decoded, NodeBytes, WellFormed;
    var bs := NodeBytes(node);
    if |bs| <= PAGE_SIZE {
      PrefixDecodes(node, seq(PAGE_SIZE - |bs|, i => 0));
      assert Resized(bs) == bs + seq(PAGE_SIZE - |bs|, i => 0);
    } else if Decoded(Resized(bs)) == Some(node) {
      DecodedFits(Resized(bs));
    }
  }

  // ------------------------------------------------------------------
  // The encoder and the decoder as the source writes them.
  // ------------------------------------------------------------------

  method EncodeKey(buf: Bytes, k: Key) returns (out: Bytes)
    ensures out == buf + KeyBytes(k)
  {
    match k
    case Integer(v) =>
      out := buf + [0];
      out := out + PutI64(v);
    case Text(s) =>
      out := buf + [1];
      var bytes := Utf8(s);
      out := out + PutU32(AsU32(|bytes|));
      out := out + bytes;
  }

  lemma {:induction false} KeysSnoc(ks: seq<Key>, k: Key)
    ensures KeysBytes(ks + [k]) == KeysBytes(ks) + KeyBytes(k)
  {
    hide KeyBytes;
    if ks == [] {
      assert [k][1..] == [] && ks + [k] == [k];
    } else {
      assert (ks + [k])[1..] == ks[1..] + [k];
      KeysSnoc(ks[1..], k);
    }
  }

  lemma {:induction false} ValuesSnoc(rs: seq<Record>, r: Record)
    ensures ValuesBytes(rs + [r]) == ValuesBytes(rs) + PutBytes(r.value)
  {
    hide PutBytes;
    if rs == [] {
      assert [r][1..] == [] && rs + [r] == [r];
    } else {
      assert (rs + [r])[1..] == rs[1..] + [r];
      ValuesSnoc(rs[1..], r);
    }
  }

  lemma {:induction false} ChildrenSnoc(cs: seq<nat>, c: nat)
    ensures ChildrenBytes(cs + [c]) == ChildrenBytes(cs) + PutU32(AsU32(c))
  {
    hide PutU32;
    if cs == [] {
      assert [c][1..] == [] && cs + [c] == [c];
    } else {
      assert (cs + [c])[1..] == cs[1..] + [c];
      ChildrenSnoc(cs[1..], c);
    }
  }

  /** A node that fits its page is read back; the page is always of full size. */
  method EncodeNode(node: Node) returns (page: Bytes)
    ensures |page| == PAGE_SIZE && page == Resized(NodeBytes(node))
    ensures WellFormed(node) ==> (Decoded(page) == Some(node) <==> |NodeBytes(node)| <= PAGE_SIZE)
  {
    hide Decoded, WellFormed, KeyBytes, PutBytes, PutU32, KeysBytes, ValuesBytes, ChildrenBytes;
    var buf: Bytes := [if node.IsLeaf() then 1 else 0];
    buf := buf + PutU32(AsU32(|node.keys|));
    buf := buf + NextBytes(node.nextLeaf);
    ghost var head := buf;
    NothingYet();
    for i := 0 to |node.keys|
      invariant buf == head + KeysBytes(node.keys[..i])
    {
      KeysSnoc(node.keys[..i], node.keys[i]);
      assert node.keys[..i + 1] == node.keys[..i] + [node.keys[i]];
      buf := EncodeKey(buf, node.keys[i]);
    }
    assert node.keys[..|node.keys|] == node.keys;
    ghost var front := buf;
    if node.IsLeaf() {
      for i := 0 to |node.records|
        invariant buf == front + ValuesBytes(node.records[..i])
      {
        ValuesSnoc(node.records[..i], node.records[i]);
        assert node.records[..i + 1] == node.records[..i] + [node.records[i]];
        buf := buf + PutBytes(node.records[i].value);
      }
      assert node.records[..|node.records|] == node.records;
    } else {
      for i := 0 to |node.children|
        invariant buf == front + ChildrenBytes(node.children[..i])
      {
        ChildrenSnoc(node.children[..i], node.children[i]);
        assert node.children[..i + 1] == node.children[..i] + [node.children[i]];
        buf := buf + PutU32(AsU32(node.children[i]));
      }
      assert node.children[..|node.children|] == node.children;
    }
    page := Resized(buf);
    if WellFormed(node) {
      PageRoundTrip(node);
    }
  }

  lemma {:induction false} NothingYet()
    ensures KeysBytes([]) == [] && ValuesBytes([]) == [] && ChildrenBytes([]) == []
  {
  }

  method DecodeKeys(page: Bytes, from: nat, n: nat) returns (r: Option<(seq<Key>, nat)>)
    requires from <= |page|
    ensures r == GetKeys(page[from..], n)
  {
    hide GetKey, Then;
    var cur := from;
    var ks: seq<Key> := [];
    ThenNone(GetKeys(page[from..], n));
    for i := 0 to n
      invariant from <= cur <= |page|
      invariant GetKeys(page[from..], n) == Then(ks, cur - from, GetKeys(page[cur..], n - i))
    {
      var k := GetKey(page[cur..]);
      StepKeys(page[cur..], n - i);
      if k.None? {
        ThenFails(ks, cur - from);
        return None;
      }
      assert page[cur..][k.value.1..] == page[cur + k.value.1..];
      ThenOne(ks, cur - from, k.value.0, k.value.1, GetKeys(page[cur + k.value.1..], n - i - 1));
      ks := ks + [k.value.0];
      cur := cur + k.value.1;
    }
    ThenEnd(ks, cur - from);
    r := Some((ks, cur - from));
  }

  lemma {:induction false} StepKeys(buf: Bytes, n: nat)
    requires n > 0
    ensures var k := GetKey(buf);
      GetKeys(buf, n) == if k.None? then None else Then([k.value.0], k.value.1, GetKeys(buf[k.value.1..], n - 1))
  {
    hide GetKey;
  }

  lemma {:induction false} StepValues(buf: Bytes, ks: seq<Key>)
    requires ks != []
    ensures var b := GetBytes(buf);
      GetValues(buf, ks) ==
        if b.None? then None else Then([Record(ks[0], b.value.0)], b.value.1, GetValues(buf[b.value.1..], ks[1..]))
  {
    hide GetBytes;
  }

  lemma {:induction false} StepChildren(buf: Bytes, n: nat)
    requires n > 0
    ensures var c := GetU32(buf);
      GetChildren(buf, n) == if c.None? then None else Then<nat>([c.value as nat], 4, GetChildren(buf[4..], n - 1))
  {
    hide GetU32;
  }

  method DecodeValues(page: Bytes, from: nat, ks: seq<Key>) returns (r: Option<(seq<Record>, nat)>)
    requires from <= |page|
    ensures r == GetValues(page[from..], ks)
  {
    hide GetBytes, Then;
    var cur := from;
    var rs: seq<Record> := [];
    ThenNone(GetValues(page[from..], ks));
    for i := 0 to |ks|
      invariant from <= cur <= |page|
      invariant GetValues(page[from..], ks) == Then(rs, cur - from, GetValues(page[cur..], ks[i..]))
    {
      var b := GetBytes(page[cur..]);
      StepValues(page[cur..], ks[i..]);
      if b.None? {
        ThenFails(rs, cur - from);
        return None;
      }
      assert page[cur..][b.value.1..] == page[cur + b.value.1..] && ks[i..][1..] == ks[i + 1..];
      ThenOne(rs, cur - from, Record(ks[i], b.value.0), b.value.1, GetValues(page[cur + b.value.1..], ks[i + 1..]));
      rs := rs + [Record(ks[i], b.value.0)];
      cur := cur + b.value.1;
    }
    ThenEnd(rs, cur - from);
    r := Some((rs, cur - from));
  }

  method DecodeChildren(page: Bytes, from: nat, n: nat) returns (r: Option<(seq<nat>, nat)>)
    requires from <= |page|
    ensures r == GetChildren(page[from..], n)
  {
    hide GetU32, Then;
    var cur := from;
    var cs: seq<nat> := [];
    ThenNone(GetChildren(page[from..], n));
    for i := 0 to n
      invariant from <= cur <= |page|
      invariant GetChildren(page[from..], n) == Then(cs, cur - from, GetChildren(page[cur..], n - i))
    {
      var c := GetU32(page[cur..]);
      StepChildren(page[cur..], n - i);
      if c.None? {
        ThenFails(cs, cur - from);
        return None;
      }
      assert page[cur..][4..] == page[cur + 4..];
      var child: nat := c.value;
      ThenOne<nat>(cs, cur - from, child, 4, GetChildren(page[cur + 4..], n - i - 1));
      cs := cs + [child];
      cur := cur + 4;
    }
    ThenEnd(cs, cur - from);
    r := Some((cs, cur - from));
  }

  /** The cursor walks the page; a read past its end is a panic, here None. */
  method DecodeNode(page: Bytes) returns (r: Option<Node>)
    ensures r == Decoded(page)
    ensures forall node, rest :: WellFormed(node) && page == NodeBytes(node) + rest ==> r == Some(node)
  {
    hide GetU32, GetKeys, GetValues, GetChildren, WellFormed, NodeBytes;
    forall node, rest | WellFormed(node) && page == NodeBytes(node) + rest
      ensures Decoded(page) == Some(node)
    {
      PrefixDecodes(node, rest);
    }
    if |page| < 9 { return None; }
    var leaf := page[0] != 0;
    var n: nat := GetU32(page[1..]).value;
    var raw := GetU32(page[5..]).value;
    var next := if raw == NONE_PAGE then None else Some(raw as nat);
    var ks := DecodeKeys(page, 9, n);
    if ks.None? { return None; }
    var cur := 9 + ks.value.1;
    if leaf {
      var rs := DecodeValues(page, cur, ks.value.0);
      if rs.None? { return None; }
      r := Some(Node(LeafNode, ks.value.0, [], rs.value.0, next));
    } else {
      var cs := DecodeChildren(page, cur, n + 1);
      if cs.None? { return None; }
      r := Some(Node(InternalNode, ks.value.0, cs.value.0, [], next));
    }
  }
}
