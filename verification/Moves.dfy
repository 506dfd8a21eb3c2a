/** Updates that assign to the key column: when they keep every row (src/planner/executor.rs). */
module Moves {
  import opened Keys
  import opened Records
  import opened RowCodec
  import opened Grammar
  import opened Tables
  import opened Queries

  type Sets = seq<(string, Expr)>

  function NewKey(env: Env, columns: seq<string>, sets: Sets, row: Row): Key {
    KeyOf(NewRow(env, columns, sets, row))
  }

  /** The new key of row number `i` is free when its turn comes: no row still to come, and no row that
      is not updated, has it as its old key, and no earlier row has taken it. */
  ghost predicate Free(env: Env, columns: seq<string>, sets: Sets, rows: seq<Row>, src: seq<Row>, i: nat)
    requires i < |src|
  {
    var k := NewKey(env, columns, sets, src[i]);
    && (k in KeySet(rows) ==> k in KeySet(src[..i + 1]))
    && forall j :: 0 <= j < i ==> NewKey(env, columns, sets, src[j]) != k
  }

  // ------------------------------------------------------------------
  // Keys of rows in order.
  // ------------------------------------------------------------------

  lemma {:induction false} CountKeys(rows: seq<Row>)
    requires InOrder(rows)
    ensures |KeySet(rows)| == |rows|
  {
    hide KeyOf;
    if rows == [] {
      assert KeySet(rows) == {};
    } else {
      Later(rows);
      CountKeys(rows[1..]);
      HeadKey(rows);
    }
  }

  lemma {:induction false} HeadKey(rows: seq<Row>)
    requires InOrder(rows) && rows != []
    ensures KeySet(rows) == {KeyOf(rows[0])} + KeySet(rows[1..]) && KeyOf(rows[0]) !in KeySet(rows[1..])
  {
    hide KeyOf;
    Later(rows);
    assert rows == [rows[0]] + rows[1..];
    forall r | r in rows[1..]
      ensures KeyOf(r) != KeyOf(rows[0])
    {
      var i :| 0 <= i < |rows[1..]| && rows[1..][i] == r;
      assert Rank(KeyOf(rows[0])) < Rank(KeyOf(rows[1..][i]));
    }
  }

  /** A row in front of rows with greater keys. */
  lemma {:induction false} Ahead(row: Row, rest: seq<Row>)
    requires InOrder(rest) && forall r :: r in rest ==> Rank(KeyOf(row)) < Rank(KeyOf(r))
    ensures InOrder([row] + rest) && KeySet([row] + rest) == {KeyOf(row)} + KeySet(rest)
    ensures KeyOf(row) !in KeySet(rest)
    ensures forall r :: r in [row] + rest <==> r == row || r in rest
  {
    hide KeyOf;
    var all := [row] + rest;
    forall k | k in {KeyOf(row)} + KeySet(rest)
      ensures k in KeySet(all)
    {
      if k == KeyOf(row) {
        assert row in all;
      } else {
        var r :| r in rest && KeyOf(r) == k;
        assert r in all;
      }
    }
  }

  lemma {:induction false} Greater(rows: seq<Row>)
    requires InOrder(rows) && rows != []
    ensures InOrder(rows[1..]) && forall r :: r in rows[1..] ==> Rank(KeyOf(rows[0])) < Rank(KeyOf(r))
    ensures forall r :: r in rows <==> r == rows[0] || r in rows[1..]
    ensures KeySet(rows) == {KeyOf(rows[0])} + KeySet(rows[1..]) && KeyOf(rows[0]) !in KeySet(rows[1..])
  {
    hide KeyOf, InOrder;
    Later(rows);
    HeadKey(rows);
    assert rows == [rows[0]] + rows[1..];
  }

  lemma {:induction false} PutKeys(rows: seq<Row>, row: Row)
    requires InOrder(rows)
    ensures InOrder(PutRow(rows, row)) && KeySet(PutRow(rows, row)) == KeySet(rows) + {KeyOf(row)}
    ensures forall r :: r in PutRow(rows, row) <==> r == row || (r in rows && KeyOf(r) != KeyOf(row))
  {
    hide KeyOf, InOrder, KeySet;
    NoRows();
    if rows == [] {
      Ahead(row, []);
      assert [row] + [] == [row];
    } else {
      Greater(rows);
      if Less(KeyOf(rows[0]), KeyOf(row)) {
        PutKeys(rows[1..], row);
        Ahead(rows[0], PutRow(rows[1..], row));
      } else if KeyOf(rows[0]) == KeyOf(row) {
        Ahead(row, rows[1..]);
      } else {
        Ahead(row, rows);
      }
    }
  }

  lemma {:induction false} NoRows()
    ensures InOrder([]) && KeySet([]) == {}
  {
  }

  lemma {:induction false} DropKeys(rows: seq<Row>, k: Key)
    requires InOrder(rows)
    ensures InOrder(DropRow(rows, k)) && KeySet(DropRow(rows, k)) == KeySet(rows) - {k}
    ensures forall r :: r in DropRow(rows, k) <==> r in rows && KeyOf(r) != k
  {
    hide KeyOf, InOrder, KeySet;
    NoRows();
    if rows != [] {
      Greater(rows);
      DropKeys(rows[1..], k);
      if KeyOf(rows[0]) != k {
        Ahead(rows[0], DropRow(rows[1..], k));
      }
    }
  }

  // ------------------------------------------------------------------
  // The run of moves.
  // ------------------------------------------------------------------

  ghost function NewKeys(env: Env, columns: seq<string>, sets: Sets, src: seq<Row>): set<Key> {
    set r | r in src :: NewKey(env, columns, sets, r)
  }

  /** After `n` moves, each to a free key: the old keys of the rows moved are gone, the new ones there. */
  lemma {:induction false} MovedKeys(env: Env, columns: seq<string>, sets: Sets, rows: seq<Row>, src: seq<Row>, n: nat)
    requires InOrder(rows) && InOrder(src) && (forall r :: r in src ==> r in rows) && n <= |src|
    requires forall i :: 0 <= i < n ==> Free(env, columns, sets, rows, src, i)
    ensures var moved := Moved(env, columns, sets, rows, src[..n]);
      && InOrder(moved) && |moved| == |rows|
      && KeySet(moved) == (KeySet(rows) - KeySet(src[..n])) + NewKeys(env, columns, sets, src[..n])
      && forall r :: r in moved <==>
           (r in rows && KeyOf(r) !in KeySet(src[..n])) || exists i ::
               0 <= i < n && r == NewRow(env, columns, sets, src[i])
  {
    hide KeyOf, NewRow, InOrder, Moved, Free, KeySet, NewKeys;
    if n == 0 {
      assert src[..0] == [];
      NotMoved(env, columns, sets, rows);
      NoKeys();
      NoNewKeys(env, columns, sets);
    } else {
      MovedKeys(env, columns, sets, rows, src, n - 1);
      MoveOn(env, columns, sets, rows, src, n - 1);
    }
  }

  lemma {:induction false} NoNewKeys(env: Env, columns: seq<string>, sets: Sets)
    ensures NewKeys(env, columns, sets, []) == {}
  {
  }

  lemma {:induction false} OneMoreNew(env: Env, columns: seq<string>, sets: Sets, src: seq<Row>, n: nat)
    requires n < |src|
    ensures NewKeys(env, columns, sets, src[..n + 1]) == NewKeys(env, columns, sets, src[..n])
        + {NewKey(env, columns, sets, src[n])}
  {
    hide NewKey;
    assert src[..n + 1] == src[..n] + [src[n]];
  }

  /** The keys before the next move: its old key is still there, and its new key is free or not. */
  lemma {:induction false} Turn(env: Env, columns: seq<string>, sets: Sets, rows: seq<Row>, src: seq<Row>, n: nat)
    requires InOrder(src) && (forall r :: r in src ==> r in rows) && n < |src|
    requires forall i :: 0 <= i < n ==> Free(env, columns, sets, rows, src, i)
    ensures var ks := (KeySet(rows) - KeySet(src[..n])) + NewKeys(env, columns, sets, src[..n]);
      && KeyOf(src[n]) in KeySet(rows) && KeyOf(src[n]) !in NewKeys(env, columns, sets, src[..n])
      && KeyOf(src[n]) in ks
      && (NewKey(env, columns, sets, src[n]) !in ks - {KeyOf(src[n])} <==> Free(env, columns, sets, rows, src, n))
  {
    hide KeyOf, NewKey;
    OneMoreKey(src, n);
    assert src[n] in src && src[n] in rows;
    var k := KeyOf(src[n]);
    forall r | r in src[..n]
      ensures NewKey(env, columns, sets, r) != k
    {
      var i :| 0 <= i < n && src[..n][i] == r;
      assert Free(env, columns, sets, rows, src, i);
      LaterKey(src, i + 1, n);
    }
    var m := NewKey(env, columns, sets, src[n]);
    assert m in NewKeys(env, columns, sets, src[..n])
        <==> exists j :: 0 <= j < n && NewKey(env, columns, sets, src[j]) == m by {
      if j :| 0 <= j < n && NewKey(env, columns, sets, src[j]) == m {
        assert src[..n][j] == src[j] && src[j] in src[..n];
      }
    }
  }

  lemma {:induction false} LaterKey(src: seq<Row>, i: nat, n: nat)
    requires InOrder(src) && i <= n < |src|
    ensures KeyOf(src[n]) !in KeySet(src[..i])
  {
    hide KeyOf;
    forall r | r in src[..i]
      ensures KeyOf(r) != KeyOf(src[n])
    {
      var j :| 0 <= j < i && src[..i][j] == r;
      assert Rank(KeyOf(src[j])) < Rank(KeyOf(src[n]));
    }
  }

  lemma {:induction false} MoveOn(env: Env, columns: seq<string>, sets: Sets, rows: seq<Row>, src: seq<Row>, n: nat)
    requires InOrder(rows) && InOrder(src) && (forall r :: r in src ==> r in rows) && n < |src|
    requires forall i :: 0 <= i < n ==> Free(env, columns, sets, rows, src, i)
    requires Free(env, columns, sets, rows, src, n)
    requires var before := Moved(env, columns, sets, rows, src[..n]);
      && InOrder(before) && |before| == |rows|
      && KeySet(before) == (KeySet(rows) - KeySet(src[..n])) + NewKeys(env, columns, sets, src[..n])
      && forall r :: r in before <==>
           (r in rows && KeyOf(r) !in KeySet(src[..n])) || exists i ::
               0 <= i < n && r == NewRow(env, columns, sets, src[i])
    ensures var moved := Moved(env, columns, sets, rows, src[..n + 1]);
      && InOrder(moved) && |moved| == |rows|
      && KeySet(moved) == (KeySet(rows) - KeySet(src[..n + 1])) + NewKeys(env, columns, sets, src[..n + 1])
      && forall r :: r in moved <==>
           (r in rows && KeyOf(r) !in KeySet(src[..n + 1])) || exists i ::
               0 <= i < n + 1 && r == NewRow(env, columns, sets, src[i])
  {
    hide KeyOf, NewRow, InOrder, Moved, KeySet, NewKeys, Free;
    var before, moved := Moved(env, columns, sets, rows, src[..n]), Moved(env, columns, sets, rows, src[..n + 1]);
    var k, m := KeyOf(src[n]), NewKey(env, columns, sets, src[n]);
    Turn(env, columns, sets, rows, src, n);
    OneMoreMove(env, columns, sets, rows, src, n);
    OneMoreKey(src, n);
    OneMoreNew(env, columns, sets, src, n);
    DropKeys(before, k);
    PutKeys(DropRow(before, k), NewRow(env, columns, sets, src[n]));
    CountKeys(before);
    CountKeys(moved);
    assert KeySet(moved) == KeySet(before) - {k} + {m};
    forall r
      ensures r in moved <==>
        (r in rows && KeyOf(r) !in KeySet(src[..n + 1])) || exists i ::
            0 <= i < n + 1 && r == NewRow(env, columns, sets, src[i])
    {
      MovedMember(env, columns, sets, rows, src, n, r);
    }
  }

  /** One row's fate in one move. */
  lemma {:induction false} MovedMember(env: Env, columns: seq<string>, sets: Sets, rows: seq<Row>, src: seq<Row>,
      n: nat, r: Row)
    requires InOrder(src) && n < |src| && (forall r :: r in src ==> r in rows)
    requires forall i :: 0 <= i < n ==> Free(env, columns, sets, rows, src, i)
    requires Free(env, columns, sets, rows, src, n)
    ensures (r == NewRow(env, columns, sets, src[n])
        || (((r in rows && KeyOf(r) !in KeySet(src[..n])) || exists i ::
            0 <= i < n && r == NewRow(env, columns, sets, src[i]))
            && KeyOf(r) != KeyOf(src[n]) && KeyOf(r) != NewKey(env, columns, sets, src[n]))) <==>
      ((r in rows && KeyOf(r) !in KeySet(src[..n + 1])) || exists i ::
          0 <= i < n + 1 && r == NewRow(env, columns, sets, src[i]))
  {
    hide KeyOf, NewRow, InOrder, KeySet;
    OneMoreKey(src, n);
    Turn(env, columns, sets, rows, src, n);
    var k, m := KeyOf(src[n]), NewKey(env, columns, sets, src[n]);
    if r in rows {
      RowHasKey(rows, r);
    }
    if i :| 0 <= i < n && r == NewRow(env, columns, sets, src[i]) {
      assert NewKey(env, columns, sets, src[i]) == KeyOf(r) != m;
      assert src[..n][i] == src[i] && src[i] in src[..n];
    }
  }

  lemma {:induction false} RowHasKey(rows: seq<Row>, r: Row)
    requires r in rows
    ensures KeyOf(r) in KeySet(rows)
  {
  }

  /** From the first move to a key in use on, a row is missing: no later move brings one back. */
  lemma {:induction false} OnlyFewer(env: Env, columns: seq<string>, sets: Sets, rows: seq<Row>, src: seq<Row>, n: nat)
    requires InOrder(rows) && InOrder(src) && (forall r :: r in src ==> r in rows) && n <= |src|
    ensures var moved := Moved(env, columns, sets, rows, src[..n]);
      && InOrder(moved) && |moved| <= |rows|
      && forall j :: n <= j < |src| ==> KeyOf(src[j]) in KeySet(moved)
    ensures forall i ::
        0 <= i <= n ==> |Moved(env, columns, sets, rows, src[..n])| <= |Moved(env, columns, sets, rows, src[..i])|
  {
    hide KeyOf, NewRow, InOrder, Moved, KeySet;
    if n == 0 {
      assert src[..0] == [];
      NotMoved(env, columns, sets, rows);
      forall j | 0 <= j < |src|
        ensures KeyOf(src[j]) in KeySet(rows)
      {
        assert src[j] in src;
        RowHasKey(rows, src[j]);
      }
    } else {
      OnlyFewer(env, columns, sets, rows, src, n - 1);
      var before, k := Moved(env, columns, sets, rows, src[..n - 1]), KeyOf(src[n - 1]);
      OneMoreMove(env, columns, sets, rows, src, n - 1);
      DropKeys(before, k);
      PutKeys(DropRow(before, k), NewRow(env, columns, sets, src[n - 1]));
      var moved := Moved(env, columns, sets, rows, src[..n]);
      CountKeys(before);
      CountKeys(moved);
      OneIn(KeySet(before), k, NewKey(env, columns, sets, src[n - 1]));
      forall j | n <= j < |src|
        ensures KeyOf(src[j]) in KeySet(moved)
      {
        Apart(src, n - 1, j);
      }
    }
  }

  lemma {:induction false} Apart(src: seq<Row>, i: nat, j: nat)
    requires InOrder(src) && i < j < |src|
    ensures KeyOf(src[i]) != KeyOf(src[j])
  {
    hide KeyOf;
    assert Rank(KeyOf(src[i])) < Rank(KeyOf(src[j]));
  }

  lemma {:induction false} OneIn(ks: set<Key>, k: Key, m: Key)
    requires k in ks
    ensures |ks - {k} + {m}| == |ks| - (if m in ks - {k} then 1 else 0)
  {
    if m in ks - {k} {
      assert ks - {k} + {m} == ks - {k};
    }
  }

  /** An update keeps every row if and only if each new key is free when its turn comes; then the rows
      are the ones not updated and the new forms of the others. */
  lemma {:induction false} KeepsEveryRow(env: Env, columns: seq<string>, sets: Sets, rows: seq<Row>, src: seq<Row>)
    requires InOrder(rows) && InOrder(src) && forall r :: r in src ==> r in rows
    ensures var moved := Moved(env, columns, sets, rows, src);
      && (|moved| == |rows| <==> forall i :: 0 <= i < |src| ==> Free(env, columns, sets, rows, src, i))
      && (|moved| == |rows| ==> forall r :: r in moved <==>
           (r in rows && KeyOf(r) !in KeySet(src)) || exists i ::
               0 <= i < |src| && r == NewRow(env, columns, sets, src[i]))
  {
    hide KeyOf, NewRow, InOrder, Moved, KeySet, Free;
    assert src[..|src|] == src;
    if forall i :: 0 <= i < |src| ==> Free(env, columns, sets, rows, src, i) {
      MovedKeys(env, columns, sets, rows, src, |src|);
    } else {
      var n := FirstClash(env, columns, sets, rows, src);
      Loses(env, columns, sets, rows, src, n);
      OnlyFewer(env, columns, sets, rows, src, |src|);
    }
  }

  lemma {:induction false} FirstClash(env: Env, columns: seq<string>, sets: Sets, rows: seq<Row>, src: seq<Row>)
      returns (n: nat)
    requires exists i :: 0 <= i < |src| && !Free(env, columns, sets, rows, src, i)
    ensures n < |src| && !Free(env, columns, sets, rows, src, n)
    ensures forall i :: 0 <= i < n ==> Free(env, columns, sets, rows, src, i)
  {
    hide Free;
    n := 0;
    while Free(env, columns, sets, rows, src, n)
      invariant n < |src| && forall i :: 0 <= i < n ==> Free(env, columns, sets, rows, src, i)
      decreases |src| - n
    {
      n := n + 1;
    }
  }

  /** The move to a key in use. */
  lemma {:induction false} Loses(env: Env, columns: seq<string>, sets: Sets, rows: seq<Row>, src: seq<Row>, n: nat)
    requires InOrder(rows) && InOrder(src) && (forall r :: r in src ==> r in rows) && n < |src|
    requires forall i :: 0 <= i < n ==> Free(env, columns, sets, rows, src, i)
    requires !Free(env, columns, sets, rows, src, n)
    ensures |Moved(env, columns, sets, rows, src[..n + 1])| == |rows| - 1
  {
    hide KeyOf, NewRow, InOrder, Moved, KeySet, NewKeys, Free;
    MovedKeys(env, columns, sets, rows, src, n);
    Turn(env, columns, sets, rows, src, n);
    var before, k := Moved(env, columns, sets, rows, src[..n]), KeyOf(src[n]);
    OneMoreMove(env, columns, sets, rows, src, n);
    DropKeys(before, k);
    PutKeys(DropRow(before, k), NewRow(env, columns, sets, src[n]));
    CountKeys(before);
    CountKeys(Moved(env, columns, sets, rows, src[..n + 1]));
    OneIn(KeySet(before), k, NewKey(env, columns, sets, src[n]));
  }
}
