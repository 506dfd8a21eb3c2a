/** The page store below a tree: nodes in memory (src/pager/storage.rs), or pages of bytes
    (src/pager/file_btree_storage.rs) that are encoded when written and decoded when read. */
module Storage {
  import opened Keys
  import opened Records
  import opened Trees
  import opened Codec
  import opened NodeSizes

  /** What is read from pages of bytes. */
  ghost function ReadBack(raw: map<nat, Bytes>): Pages {
    map id | id in raw && Decoded(raw[id]).Some? :: Decoded(raw[id]).value
  }

  class PageStore {
    const file: bool
    /** On file: how long the keys and values are that the trees of this store are given. */
    ghost const room: Option<Limits>
    var nodes: Pages
    var raw: map<nat, Bytes>
    var nextPage: nat
    /** The nodes that reading gives. */
    ghost var pages: Pages

    ghost predicate Valid()
      reads this`pages, this`nodes, this`raw
    {
      && pages == (if file then ReadBack(raw) else nodes)
      && (room.Some? <==> file)
    }

    /** Besides, every node that can be read is within the limits. */
    ghost predicate Ready()
      reads this`pages, this`nodes, this`raw
    {
      Valid() && forall id :: id in pages ==> Small(pages[id], room)
    }

    lemma {:induction false} ReadyIsValid()
      requires Ready()
      ensures Valid() && forall id :: id in pages ==> Small(pages[id], room)
    {
    }

    /** Trees of order `n` write no node that is too long. */
    ghost predicate Suits(n: nat) { room.Some? ==> PageBound(n, room.value) }

    /** There are page numbers left for `n` more pages: on file they are u32, one of which means none. */
    ghost predicate Spare(n: nat)
      reads this`nextPage
    {
      room.Some? ==> nextPage + n <= NONE_PAGE
    }

    constructor InMemory()
      ensures Ready() && pages == map[] && nextPage == 0 && !file && room == None
    {
      file, nodes, raw, nextPage := false, map[], map[], 0;
      room, pages := None, map[];
    }

    constructor OnFile(ghost limits: Limits)
      ensures Ready() && pages == map[] && nextPage == 0 && file && room == Some(limits)
    {
      file, nodes, raw, nextPage := true, map[], map[], 0;
      room, pages := Some(limits), map[];
    }

    /** The file as another store left it. */
    constructor Reopened(raw: map<nat, Bytes>, nextPage: nat, ghost limits: Limits)
      requires forall id :: id in ReadBack(raw) ==> Formed(ReadBack(raw)[id], limits)
      ensures Ready() && pages == ReadBack(raw) && this.raw == raw && this.nextPage == nextPage
      ensures file && room == Some(limits)
    {
      file, nodes, this.raw, this.nextPage := true, map[], raw, nextPage;
      room, pages := Some(limits), ReadBack(raw);
    }

    method ReadNode(id: nat) returns (node: Node)
      requires Valid() && id in pages
      ensures node == pages[id]
    {
      hide Decoded;
      if file {
        var decoded := DecodeNode(raw[id]);
        node := decoded.value;
      } else {
        node := nodes[id];
      }
    }

    /** In memory any node reads back as it was written; on file a well-formed one does if and only if
        it fits its page, for a longer one is cut off.  No other page changes. */
    method WriteNode(id: nat, node: Node)
      requires Valid()
      modifies this`pages, this`nodes, this`raw
      ensures Valid()
      ensures forall q :: q != id ==> (q in pages <==> q in old(pages)) && (q in pages ==> pages[q] == old(pages)[q])
      ensures !file || Fits(node) ==> pages == old(pages)[id := node]
      ensures WellFormed(node) ==> (id in pages && pages[id] == node <==> file ==> |NodeBytes(node)| <= PAGE_SIZE)
    {
      hide Decoded, NodeBytes, WellFormed;
      if WellFormed(node) {
        PageRoundTrip(node);
      }
      if file {
        var page := EncodeNode(node);
        raw := raw[id := page];
        pages := ReadBack(raw);
      } else {
        nodes := nodes[id := node];
        pages := nodes;
      }
    }

    /** Writing a node of a tree of order `n` whose keys and values are within the limits. */
    method WriteSmall(id: nat, node: Node, ghost n: nat)
      requires Ready() && Suits(n) && Writable(node, n, room)
      modifies this`pages, this`nodes, this`raw
      ensures Ready() && pages == old(pages)[id := node]
    {
      hide Fits, Formed, PageBound, Counted;
      if file {
        NodeFits(node, n, room.value);
      }
      WriteNode(id, node);
    }

    method AllocPage() returns (id: nat)
      modifies this`nextPage
      ensures id == old(nextPage) && nextPage == id + 1
    {
      id := nextPage;
      nextPage := nextPage + 1;
    }
  }
}
