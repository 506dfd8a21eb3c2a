/** A table: rows keyed by their first value, in a B+Tree (src/table/table.rs). */
module Tables {
  import opened Keys
  import opened Wire
  import opened Records
  import opened Trees
  import opened Storage
  import opened NodeSizes
  import opened BPlusTrees
  import opened TreeSteps
  import opened RowCodec

  function RowKey(row: Row): Option<Key> {
    if row == [] then None
    else
      match row[0]
      case Int(v) => Some(Integer(v))
      case Str(s) => Some(Text(s))
      case _ => None
  }

  function KeyOf(row: Row): Key {
    if RowKey(row).Some? then RowKey(row).value else Integer(0)
  }

  predicate RowOk(row: Row, arity: nat) {
    |row| == arity && Storable(row) && RowKey(row).Some?
  }

  ghost predicate AllOk(rows: seq<Row>, arity: nat) {
    forall i :: 0 <= i < |rows| ==> RowOk(rows[i], arity)
  }

  /** Rows in strictly ascending key order. */
  ghost predicate InOrder(rows: seq<Row>) {
    forall i, j :: 0 <= i < j < |rows| ==> Rank(KeyOf(rows[i])) < Rank(KeyOf(rows[j]))
  }

  function Encoded(rows: seq<Row>): (recs: seq<Record>)
    ensures |recs| == |rows|
    ensures forall i :: 0 <= i < |rows| ==> recs[i] == Record(KeyOf(rows[i]), RowBytes(rows[i]))
  {
    seq(|rows|, i requires 0 <= i < |rows| => Record(KeyOf(rows[i]), RowBytes(rows[i])))
  }

  function FindRow(rows: seq<Row>, k: Key): Option<Row> {
    if rows == [] then None else if KeyOf(rows[0]) == k then Some(rows[0]) else FindRow(rows[1..], k)
  }

  /** The row put in its place, replacing the row with its key if there is one. */
  function PutRow(rows: seq<Row>, row: Row): seq<Row> {
    if rows == [] then [row]
    else if Less(KeyOf(rows[0]), KeyOf(row)) then [rows[0]] + PutRow(rows[1..], row)
    else if KeyOf(rows[0]) == KeyOf(row) then [row] + rows[1..]
    else [row] + rows
  }

  function DropRow(rows: seq<Row>, k: Key): seq<Row> {
    if rows == [] then [] else if KeyOf(rows[0]) == k then rows[1..] else [rows[0]] + DropRow(rows[1..], k)
  }

  lemma {:induction false} EncodedTail(rows: seq<Row>)
    requires rows != []
    ensures Encoded(rows)[1..] == Encoded(rows[1..])
    ensures Encoded(rows) == [Record(KeyOf(rows[0]), RowBytes(rows[0]))] + Encoded(rows[1..])
  {
  }

  lemma {:induction false} EncodedFind(rows: seq<Row>, k: Key)
    ensures Lookup(Encoded(rows), k) == match FindRow(rows, k) case Some(row) => Some(RowBytes(row)) case None => None
    ensures FindRow(rows, k).Some? ==> FindRow(rows, k).value in rows && KeyOf(FindRow(rows, k).value) == k
  {
    hide RowBytes, KeyOf;
    if rows != [] {
      EncodedTail(rows);
      EncodedFind(rows[1..], k);
    }
  }

  lemma {:induction false} EncodedPut(rows: seq<Row>, row: Row)
    ensures Encoded(PutRow(rows, row)) == Put(Encoded(rows), Record(KeyOf(row), RowBytes(row)))
  {
    hide RowBytes, KeyOf;
    if rows != [] {
      EncodedTail(rows);
      EncodedPut(rows[1..], row);
      EncodedTail([rows[0]] + PutRow(rows[1..], row));
      EncodedTail([row] + rows[1..]);
      EncodedTail([row] + rows);
      assert ([rows[0]] + PutRow(rows[1..], row))[1..] == PutRow(rows[1..], row);
    }
  }

  lemma {:induction false} EncodedDrop(rows: seq<Row>, k: Key)
    ensures Encoded(DropRow(rows, k)) == Drop(Encoded(rows), k)
  {
    hide RowBytes, KeyOf;
    if rows != [] {
      EncodedTail(rows);
      EncodedDrop(rows[1..], k);
      if KeyOf(rows[0]) != k {
        EncodedTail(DropRow(rows, k));
        assert DropRow(rows, k)[1..] == DropRow(rows[1..], k);
      }
    }
  }

  lemma {:induction false} PutOk(rows: seq<Row>, row: Row, arity: nat)
    requires AllOk(rows, arity) && RowOk(row, arity)
    ensures AllOk(PutRow(rows, row), arity)
  {
    hide RowOk, KeyOf;
    if rows != [] {
      PutOk(rows[1..], row, arity);
    }
  }

  lemma {:induction false} DropOk(rows: seq<Row>, k: Key, arity: nat)
    requires AllOk(rows, arity)
    ensures AllOk(DropRow(rows, k), arity)
  {
    hide RowOk, KeyOf;
    if rows != [] {
      DropOk(rows[1..], k, arity);
    }
  }

  lemma {:induction false} OrderedRows(rows: seq<Row>)
    requires Ascending(Encoded(rows))
    ensures InOrder(rows)
  {
    hide RowBytes, KeyOf;
    forall i, j | 0 <= i < j < |rows|
      ensures Rank(KeyOf(rows[i])) < Rank(KeyOf(rows[j]))
    {
      assert Encoded(rows)[i].key == KeyOf(rows[i]) && Encoded(rows)[j].key == KeyOf(rows[j]);
    }
  }

  class Table {
    const arity: nat
    const tree: BPlusTree
    ghost var rows: seq<Row>

    /** The tree holds exactly the rows, each under its key, and knows how many there are. */
    ghost predicate Valid()
      reads this, tree, tree.store
    {
      && tree.order == 64 && tree.Valid() && tree.size == |tree.Contents()|
      && AllOk(rows, arity) && tree.Contents() == Encoded(rows)
    }

    constructor (arity: nat, store: PageStore)
      requires store.Ready() && store.Suits(64) && store.Spare(1)
      modifies store
      ensures Valid() && rows == [] && this.arity == arity && fresh(tree) && tree.store == store
    {
      this.arity := arity;
      tree := new BPlusTree(64, store);
      rows := [];
    }

    lemma {:induction false} Ordered()
      requires Valid()
      ensures InOrder(rows)
    {
      hide Good, Ids, Flat, ToMap;
      FlatOrdered(tree.store.pages, tree.tree, 64, tree.height, MIN_RANK, MAX_RANK, None);
      OrderedRows(rows);
    }

    lemma {:induction false} Unlimited()
      requires Valid() && !tree.store.file
      ensures tree.store.room.None?
    {
    }

    /** The first value becomes the key; a row without a usable one is refused.  On file a row must be
        within the limits of the store. */
    method Insert(row: Row) returns (ok: bool)
      requires Valid() && (RowKey(row).Some? ==> RowOk(row, arity))
      requires RowKey(row).Some? ==> SmallRecord(Record(RowKey(row).value, RowBytes(row)), tree.store.room)
      requires tree.store.Spare(tree.height + 2)
      modifies this`rows, tree, tree.store
      ensures Valid() && (ok <==> RowKey(row).Some?)
      ensures rows == if ok then PutRow(old(rows), row) else old(rows)
    {
      hide Good, Ids, Flat, ToMap, RowBytes, Put, RowOk, Encoded;
      var key := RowKey(row);
      if key.None? {
        return false;
      }
      var bytes := Serialize(row);
      EncodedPut(rows, row);
      PutOk(rows, row, arity);
      tree.Insert(key.value, bytes);
      rows := PutRow(rows, row);
      return true;
    }

    method Get(key: Key) returns (row: Option<Row>)
      requires Valid()
      ensures row == FindRow(rows, key)
    {
      hide Good, Ids, Flat, ToMap, RowBytes, Lookup, GetRow;
      var bytes := tree.Search(key);
      EncodedFind(rows, key);
      if bytes.None? {
        return None;
      }
      ghost var found := FindRow(rows, key).value;
      assert RowOk(found, arity);
      assert RowBytes(found) + [] == RowBytes(found);
      RowRoundTrip(found, []);
      row := Deserialize(arity, bytes.value);
    }

    method Delete(key: Key) returns (removed: bool)
      requires Valid()
      modifies this`rows, tree, tree.store
      ensures Valid() && (removed <==> FindRow(old(rows), key).Some?)
      ensures rows == DropRow(old(rows), key)
    {
      hide Good, Ids, Flat, ToMap, RowBytes, Drop, RowOk, Encoded;
      EncodedFind(rows, key);
      EncodedDrop(rows, key);
      DropOk(rows, key, arity);
      KeyThere(key);
      var gone := tree.Delete(key);
      removed := gone.value;
      rows := DropRow(rows, key);
    }

    lemma {:induction false} KeyThere(key: Key)
      requires Valid()
      ensures key in tree.Model() <==> FindRow(rows, key).Some?
      ensures key in tree.Model() ==> tree.size > 0
    {
      hide Good, Ids, Flat, RowBytes;
      EncodedFind(rows, key);
      LookupIsMap(tree.Contents(), key);
    }

    method Scan() returns (all: seq<Row>)
      requires Valid()
      ensures all == rows
    {
      hide Good, Ids, Flat, ToMap, RowBytes, GetRow;
      var records := tree.ScanAll();
      all := [];
      for i := 0 to |records|
        invariant all == rows[..i]
      {
        assert RowOk(rows[i], arity);
        assert RowBytes(rows[i]) + [] == RowBytes(rows[i]);
        RowRoundTrip(rows[i], []);
        var row := Deserialize(arity, records[i].value);
        all := all + [row.value];
      }
    }
  }
}
