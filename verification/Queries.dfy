/** Choosing between a key lookup and a scan, and running SELECT, DELETE and UPDATE on one table
    (src/planner/planner.rs, src/planner/executor.rs). */
module Queries {
  import opened Keys
  import opened Wire
  import opened RowCodec
  import opened Grammar
  import opened Tables

  // ------------------------------------------------------------------
  // Comparing and evaluating.
  // ------------------------------------------------------------------

  datatype Order = Lower | Same | Higher

  /** What evaluation takes from outside this model: floats (numeric order, the bits of a literal)
      and the expressions other than comparisons and connectives.  None is an error. */
  datatype Env = Env(
    numeric: (Value, Value) -> Order,
    bits: real -> U64,
    other: (Expr, Row, seq<string>) -> Option<Value>)

  function IntOrder(x: int, y: int): Order {
    if x < y then Lower else if x == y then Same else Higher
  }

  /** Values of kinds that do not compare count as equal. */
  function Compared(env: Env, a: Value, b: Value): Order {
    match (a, b)
    case (Null, Null) => Same
    case (Null, _) => Lower
    case (_, Null) => Higher
    case (Int(x), Int(y)) => IntOrder(x, y)
    case (Float(_), Float(_)) => env.numeric(a, b)
    case (Int(_), Float(_)) => env.numeric(a, b)
    case (Float(_), Int(_)) => env.numeric(a, b)
    case (Str(x), Str(y)) => if TextLess(x, y) then Lower else if x == y then Same else Higher
    case (Bool(x), Bool(y)) => if x == y then Same else if y then Lower else Higher
    case _ => Same
  }

  function Truthy(v: Value): bool {
    match v
    case Bool(b) => b
    case Int(i) => i != 0
    case Float(bits) => bits % 0x8000_0000_0000_0000 != 0
    case Str(s) => s != ""
    case Null => false
  }

  /** The first column of that name. */
  function IndexOf(columns: seq<string>, name: string): (i: Option<nat>)
    ensures i.Some? ==> i.value < |columns| && columns[i.value] == name
    ensures forall k :: 0 <= k < (if i.Some? then i.value else |columns|) ==> columns[k] != name
  {
    if columns == [] then None
    else if columns[0] == name then Some(0)
    else
      var i := IndexOf(columns[1..], name);
      if i.Some? then Some(i.value + 1) else None
  }

  function Apply(env: Env, op: BinOp, l: Value, r: Value): Value
    requires op !in {OpAdd, OpSub, OpMul, OpDiv, OpMod, OpConcat}
  {
    var o := Compared(env, l, r);
    match op
    case OpAnd => Bool(Truthy(l) && Truthy(r))
    case OpOr => Bool(Truthy(l) || Truthy(r))
    case OpEq => Bool(o == Same)
    case OpNotEq => Bool(o != Same)
    case OpLt => Bool(o == Lower)
    case OpLtEq => Bool(o != Higher)
    case OpGt => Bool(o == Higher)
    case OpGtEq => Bool(o != Lower)
  }

  function Eval(env: Env, e: Expr, row: Row, columns: seq<string>): Option<Value> {
    match e
    case LitInt(v) => Some(Int(v))
    case LitFloat(x) => Some(Float(env.bits(x)))
    case LitStr(s) => Some(Str(s))
    case LitBool(b) => Some(Bool(b))
    case LitNull => Some(Null)
    case Column(_, name) =>
      var i := IndexOf(columns, name);
      if i.None? then None else Some(if i.value < |row| then row[i.value] else Null)
    case Binary(left, op, right) =>
      if op in {OpAdd, OpSub, OpMul, OpDiv, OpMod, OpConcat} then env.other(e, row, columns)
      else
        var l, r := Eval(env, left, row, columns), Eval(env, right, row, columns);
        if l.None? || r.None? then None else Some(Apply(env, op, l.value, r.value))
    case Unary(OpNot, p) =>
      var v := Eval(env, p, row, columns);
      if v.None? then None else Some(Bool(!Truthy(v.value)))
    case IsNull(p, negated) =>
      var v := Eval(env, p, row, columns);
      if v.None? then None else Some(Bool(v.value.Null? != negated))
    case Between(p, low, high, negated) =>
      var v, lo, hi := Eval(env, p, row, columns), Eval(env, low, row, columns), Eval(env, high, row, columns);
      if v.None? || lo.None? || hi.None? then None
      else Some(Bool((Compared(env, v.value, lo.value) != Lower
          && Compared(env, v.value, hi.value) != Higher) != negated))
    case InList(p, es, negated) =>
      var v := Eval(env, p, row, columns);
      if v.None? then None
      else
        var found := exists i :: 0 <= i < |es| && SameAs(env, Eval(env, es[i], row, columns), v.value);
        Some(Bool(found != negated))
    case _ => env.other(e, row, columns)
  }

  predicate SameAs(env: Env, x: Option<Value>, v: Value) {
    x.Some? && Compared(env, v, x.value) == Same
  }

  /** A row passes a filter unless evaluating it fails or gives something false. */
  predicate Passes(env: Env, columns: seq<string>, filter: Option<Expr>, row: Row) {
    filter.None? || (var v := Eval(env, filter.value, row, columns); v.Some? && Truthy(v.value))
  }

  function Select(env: Env, columns: seq<string>, filter: Option<Expr>, rows: seq<Row>): seq<Row> {
    if rows == [] then []
    else (if Passes(env, columns, filter, rows[0]) then [rows[0]] else []) + Select(env, columns, filter, rows[1..])
  }

  // ------------------------------------------------------------------
  // Planning.
  // ------------------------------------------------------------------

  datatype Plan = SeqScan(filter: Option<Expr>) | IndexScan(column: string, value: Expr)

  /** `column = e` or `e = column`, the left side tried first. */
  function EqCondition(e: Expr): Option<(string, Expr)> {
    if !e.Binary? || e.op != OpEq then None
    else if e.left.Column? && e.left.table.None? then Some((e.left.name, e.right))
    else if e.right.Column? && e.right.table.None? then Some((e.right.name, e.left))
    else None
  }

  function PlanTableScan(columns: seq<string>, filter: Option<Expr>): Plan {
    var eq := if filter.Some? then EqCondition(filter.value) else None;
    if eq.Some? && columns != [] && columns[0] == eq.value.0 then IndexScan(eq.value.0, eq.value.1)
    else SeqScan(filter)
  }

  function ExprToKey(e: Expr): Option<Key> {
    match e
    case LitInt(v) => Some(Integer(v))
    case LitStr(s) => Some(Text(s))
    case _ => None
  }

  /** The rows a plan returns; None is an error. */
  function Answer(env: Env, columns: seq<string>, plan: Plan, rows: seq<Row>): Option<seq<Row>> {
    match plan
    case SeqScan(filter) => Some(Select(env, columns, filter, rows))
    case IndexScan(_, value) =>
      var key := ExprToKey(value);
      if key.None? then None
      else
        var found := FindRow(rows, key.value);
        Some(if found.Some? then [found.value] else [])
  }

  /** Every key is of the literal's kind: an integer, or a text. */
  ghost predicate OneKind(rows: seq<Row>, key: Key) {
    forall i :: 0 <= i < |rows| ==> KeyOf(rows[i]).Text? == key.Text?
  }

  /** The equality, evaluated on a row. */
  lemma {:induction false} EqualityOnRow(env: Env, columns: seq<string>, e: Expr, row: Row)
    requires EqCondition(e).Some? && columns != [] && columns[0] == EqCondition(e).value.0
    requires RowKey(row).Some? && ExprToKey(EqCondition(e).value.1).Some?
    ensures var key := ExprToKey(EqCondition(e).value.1).value;
      Passes(env, columns, Some(e), row) <==> KeyOf(row) == key || KeyOf(row).Text? != key.Text?
  {
    var (name, lit) := EqCondition(e).value;
    assert IndexOf(columns, name) == Some(0);
    var key := ExprToKey(lit).value;
    var k := if key.Text? then Str(key.s) else Int(key.v);
    assert Eval(env, lit, row, columns) == Some(k);
    assert Eval(env, Column(None, name), row, columns) == Some(row[0]);
    if e.left.Column? && e.left.table.None? {
      assert Eval(env, e, row, columns) == Some(Bool(Compared(env, row[0], k) == Same));
    } else {
      assert Eval(env, e, row, columns) == Some(Bool(Compared(env, k, row[0]) == Same));
    }
  }

  lemma {:induction false} SelectIs(env: Env, columns: seq<string>, filter: Option<Expr>, rows: seq<Row>)
    ensures forall r :: r in Select(env, columns, filter, rows) <==> r in rows && Passes(env, columns, filter, r)
  {
    hide Passes;
    if rows != [] {
      SelectIs(env, columns, filter, rows[1..]);
      assert rows == [rows[0]] + rows[1..];
    }
  }

  lemma {:induction false} Later(rows: seq<Row>)
    requires InOrder(rows) && rows != []
    ensures InOrder(rows[1..]) && forall i :: 0 <= i < |rows[1..]| ==> Rank(KeyOf(rows[0])) < Rank(KeyOf(rows[1..][i]))
  {
    hide KeyOf;
  }

  lemma {:induction false} NotFound(rows: seq<Row>, k: Key)
    requires forall i :: 0 <= i < |rows| ==> KeyOf(rows[i]) != k
    ensures FindRow(rows, k).None?
  {
    hide KeyOf;
    if rows != [] {
      NotFound(rows[1..], k);
    }
  }

  /** Filtering by a condition that says `the key is k` is looking k up. */
  lemma {:induction false} SelectByKey(env: Env, columns: seq<string>, filter: Option<Expr>, rows: seq<Row>, k: Key)
    requires InOrder(rows)
    requires forall i :: 0 <= i < |rows| ==> (Passes(env, columns, filter, rows[i]) <==> KeyOf(rows[i]) == k)
    ensures Select(env, columns, filter, rows) ==
      if FindRow(rows, k).Some? then [FindRow(rows, k).value] else []
  {
    hide KeyOf, Passes;
    if rows != [] {
      Later(rows);
      SelectByKey(env, columns, filter, rows[1..], k);
      if KeyOf(rows[0]) == k {
        NotFound(rows[1..], k);
      }
    }
  }

  /** For every table and every WHERE clause, the plan answers what filtering a full scan answers if
      and only if it is that scan, or looks up a literal of the kind that all the keys have. */
  lemma {:induction false} PlanExact(env: Env, columns: seq<string>, arity: nat, filter: Option<Expr>, rows: seq<Row>)
    requires AllOk(rows, arity) && InOrder(rows)
    ensures var plan := PlanTableScan(columns, filter);
      Answer(env, columns, plan, rows) == Some(Select(env, columns, filter, rows)) <==>
        plan.SeqScan? || (ExprToKey(plan.value).Some? && OneKind(rows, ExprToKey(plan.value).value))
  {
    hide Passes, Select, KeyOf;
    var plan := PlanTableScan(columns, filter);
    if plan.IndexScan? && ExprToKey(plan.value).Some? {
      var key := ExprToKey(plan.value).value;
      forall i | 0 <= i < |rows|
        ensures Passes(env, columns, filter, rows[i]) <==> KeyOf(rows[i]) == key || KeyOf(rows[i]).Text? != key.Text?
      {
        assert RowOk(rows[i], arity);
        EqualityOnRow(env, columns, filter.value, rows[i]);
      }
      if OneKind(rows, key) {
        SelectByKey(env, columns, filter, rows, key);
      } else {
        var i :| 0 <= i < |rows| && KeyOf(rows[i]).Text? != key.Text?;
        SelectIs(env, columns, filter, rows);
        assert rows[i] in Select(env, columns, filter, rows);
        EncodedFind(rows, key);
      }
    }
  }

  /** The WHERE clause is not applied a second time above the scan. */
  function IsPushedDown(plan: Plan, e: Expr): bool {
    plan.IndexScan? || plan.filter == Some(e)
  }

  /** The filter above the scan, if the plan did not take the clause in. */
  function Refiltered(env: Env, columns: seq<string>, plan: Plan, filter: Option<Expr>, rows: seq<Row>): seq<Row> {
    if filter.Some? && !IsPushedDown(plan, filter.value) then Select(env, columns, filter, rows) else rows
  }

  // ------------------------------------------------------------------
  // DELETE and UPDATE on rows.
  // ------------------------------------------------------------------

  function KeySet(rows: seq<Row>): set<Key> {
    set r | r in rows :: KeyOf(r)
  }

  function Kept(rows: seq<Row>, ks: set<Key>): seq<Row> {
    if rows == [] then []
    else (if KeyOf(rows[0]) in ks then [] else [rows[0]]) + Kept(rows[1..], ks)
  }

  lemma {:induction false} KeptStep(rows: seq<Row>, ks: set<Key>, k: Key)
    requires InOrder(rows)
    ensures DropRow(Kept(rows, ks), k) == Kept(rows, ks + {k})
  {
    hide KeyOf;
    if rows != [] {
      Later(rows);
      KeptStep(rows[1..], ks, k);
      var head, rest := rows[0], Kept(rows[1..], ks);
      if KeyOf(head) in ks {
        assert [] + rest == rest;
        assert Kept(rows, ks + {k}) == [] + Kept(rows[1..], ks + {k}) == Kept(rows[1..], ks + {k});
      } else if KeyOf(head) == k {
        KeptSame(rows[1..], ks, k);
        assert ([head] + rest)[1..] == rest;
        assert Kept(rows, ks + {k}) == [] + Kept(rows[1..], ks + {k}) == Kept(rows[1..], ks + {k});
      } else {
        assert ([head] + rest)[1..] == rest;
      }
    }
  }

  lemma {:induction false} KeptSame(rows: seq<Row>, ks: set<Key>, k: Key)
    requires forall i :: 0 <= i < |rows| ==> KeyOf(rows[i]) != k
    ensures Kept(rows, ks + {k}) == Kept(rows, ks)
  {
    hide KeyOf;
    if rows != [] {
      KeptSame(rows[1..], ks, k);
    }
  }

  lemma {:induction false} KeptAll(rows: seq<Row>)
    ensures Kept(rows, {}) == rows
  {
    hide KeyOf;
    if rows != [] {
      KeptAll(rows[1..]);
      assert rows == [rows[0]] + rows[1..];
    }
  }

  /** The rows that do not pass. */
  function Rejected(env: Env, columns: seq<string>, filter: Option<Expr>, rows: seq<Row>): seq<Row> {
    if rows == [] then []
    else (if Passes(env, columns, filter, rows[0]) then [] else [rows[0]]) + Rejected(env, columns, filter, rows[1..])
  }

  /** A row's key is among the selected keys exactly if the row passes. */
  lemma {:induction false} SelectedKeys(env: Env, columns: seq<string>, filter: Option<Expr>, rows: seq<Row>, i: nat)
    requires InOrder(rows) && i < |rows|
    ensures KeyOf(rows[i]) in KeySet(Select(env, columns, filter, rows)) <==> Passes(env, columns, filter, rows[i])
  {
    hide KeyOf, Passes, Select;
    SelectIs(env, columns, filter, rows);
    if r :| r in Select(env, columns, filter, rows) && KeyOf(r) == KeyOf(rows[i]) {
      var j :| 0 <= j < |rows| && rows[j] == r;
      assert !(i < j) && !(j < i);
    }
  }

  lemma {:induction false} KeptIs(env: Env, columns: seq<string>, filter: Option<Expr>, rows: seq<Row>, ks: set<Key>)
    requires forall i :: 0 <= i < |rows| ==> (KeyOf(rows[i]) in ks <==> Passes(env, columns, filter, rows[i]))
    ensures Kept(rows, ks) == Rejected(env, columns, filter, rows)
  {
    hide KeyOf, Passes;
    if rows != [] {
      KeptIs(env, columns, filter, rows[1..], ks);
    }
  }

  /** Deleting the keys of the selected rows leaves exactly the rows that do not pass. */
  lemma {:induction false} DeleteExact(env: Env, columns: seq<string>, filter: Option<Expr>, rows: seq<Row>)
    requires InOrder(rows)
    ensures Kept(rows, KeySet(Select(env, columns, filter, rows))) == Rejected(env, columns, filter, rows)
  {
    hide KeyOf, Passes, Select, Kept, Rejected;
    var ks := KeySet(Select(env, columns, filter, rows));
    forall i | 0 <= i < |rows|
      ensures KeyOf(rows[i]) in ks <==> Passes(env, columns, filter, rows[i])
    {
      SelectedKeys(env, columns, filter, rows, i);
    }
    KeptIs(env, columns, filter, rows, ks);
  }

  /** The row with the assignments made, each evaluated on the old row. */
  function Assigned(env: Env, columns: seq<string>, sets: seq<(string, Expr)>, row: Row): (r: Option<Row>)
    ensures r.Some? ==> |r.value| == |row|
  {
    if sets == [] then Some(row)
    else
      var n := |sets| - 1;
      var prev := Assigned(env, columns, sets[..n], row);
      var i := IndexOf(columns, sets[n].0);
      var v := Eval(env, sets[n].1, row, columns);
      if prev.None? || i.None? || v.None? || i.value >= |row| then None else Some(prev.value[i.value := v.value])
  }

  /** No assignment names the first column. */
  predicate KeepsKey(columns: seq<string>, sets: seq<(string, Expr)>) {
    forall i :: 0 <= i < |sets| ==> IndexOf(columns, sets[i].0) != Some(0)
  }

  /** Assignment `k` is the last that names column `i`. */
  ghost predicate LastFor(columns: seq<string>, sets: seq<(string, Expr)>, i: nat, k: int) {
    && 0 <= k < |sets| && IndexOf(columns, sets[k].0) == Some(i)
    && forall j :: k < j < |sets| ==> IndexOf(columns, sets[j].0) != Some(i)
  }

  /** Position `i` gets the value of the last assignment that names its column, or stays. */
  lemma {:induction false} AssignedAt(env: Env, columns: seq<string>, sets: seq<(string, Expr)>, row: Row, i: nat)
    requires Assigned(env, columns, sets, row).Some? && i < |row|
    ensures (forall k :: 0 <= k < |sets| ==> IndexOf(columns, sets[k].0) != Some(i)) ==>
      Assigned(env, columns, sets, row).value[i] == row[i]
    ensures forall k :: LastFor(columns, sets, i, k) ==>
      Some(Assigned(env, columns, sets, row).value[i]) == Eval(env, sets[k].1, row, columns)
  {
    hide Eval, IndexOf;
    if sets != [] {
      var n := |sets| - 1;
      AssignedAt(env, columns, sets[..n], row, i);
      forall k | LastFor(columns, sets, i, k)
        ensures Some(Assigned(env, columns, sets, row).value[i]) == Eval(env, sets[k].1, row, columns)
      {
        if k < n {
          assert LastFor(columns, sets[..n], i, k);
        }
      }
    }
  }

  /** The row an update writes. */
  function NewRow(env: Env, columns: seq<string>, sets: seq<(string, Expr)>, row: Row): (r: Row)
    ensures |r| == |row|
  {
    var r := Assigned(env, columns, sets, row);
    if r.Some? then r.value else row
  }

  lemma {:induction false} NewRowKey(env: Env, columns: seq<string>, sets: seq<(string, Expr)>, row: Row)
    requires KeepsKey(columns, sets)
    ensures RowKey(NewRow(env, columns, sets, row)) == RowKey(row)
        && KeyOf(NewRow(env, columns, sets, row)) == KeyOf(row)
  {
    hide Eval, IndexOf, Assigned;
    if Assigned(env, columns, sets, row).Some? && row != [] {
      AssignedAt(env, columns, sets, row, 0);
    }
  }

  function Rewritten(env: Env, columns: seq<string>, sets: seq<(string, Expr)>, rows: seq<Row>,
      ks: set<Key>): (r: seq<Row>)
    ensures |r| == |rows|
  {
    if rows == [] then []
    else
      [if KeyOf(rows[0]) in ks then NewRow(env, columns, sets, rows[0]) else rows[0]]
      + Rewritten(env, columns, sets, rows[1..], ks)
  }

  /** Rewriting one more row: the old row goes, the new one takes its place. */
  lemma {:induction false} RewriteStep(env: Env, columns: seq<string>, sets: seq<(string, Expr)>, rows: seq<Row>,
      ks: set<Key>, i: nat)
    requires InOrder(rows) && KeepsKey(columns, sets) && i < |rows| && KeyOf(rows[i]) !in ks
    ensures PutRow(DropRow(Rewritten(env, columns, sets, rows, ks), KeyOf(rows[i])),
        NewRow(env, columns, sets, rows[i])) ==
      Rewritten(env, columns, sets, rows, ks + {KeyOf(rows[i])})
  {
    hide KeyOf, NewRow, KeepsKey;
    var k, next := KeyOf(rows[i]), NewRow(env, columns, sets, rows[i]);
    Later(rows);
    NewRowKey(env, columns, sets, rows[i]);
    NewRowKey(env, columns, sets, rows[0]);
    var rest := Rewritten(env, columns, sets, rows[1..], ks);
    if i == 0 {
      RewrittenSame(env, columns, sets, rows[1..], ks, k);
      PutFirst(env, columns, sets, rows[1..], ks, next);
    } else {
      RewriteStep(env, columns, sets, rows[1..], ks, i - 1);
      assert rows[1..][i - 1] == rows[i];
      var all := Rewritten(env, columns, sets, rows, ks);
      assert all[1..] == rest && KeyOf(all[0]) == KeyOf(rows[0]) != k;
      assert DropRow(all, k) == [all[0]] + DropRow(rest, k);
      assert ([all[0]] + DropRow(rest, k))[1..] == DropRow(rest, k);
    }
  }

  lemma {:induction false} RewrittenSame(env: Env, columns: seq<string>, sets: seq<(string, Expr)>, rows: seq<Row>,
      ks: set<Key>, k: Key)
    requires forall i :: 0 <= i < |rows| ==> KeyOf(rows[i]) != k
    ensures Rewritten(env, columns, sets, rows, ks + {k}) == Rewritten(env, columns, sets, rows, ks)
  {
    hide KeyOf, NewRow;
    if rows != [] {
      RewrittenSame(env, columns, sets, rows[1..], ks, k);
    }
  }

  lemma {:induction false} PutFirst(env: Env, columns: seq<string>, sets: seq<(string, Expr)>, rows: seq<Row>,
      ks: set<Key>, row: Row)
    requires KeepsKey(columns, sets) && forall i :: 0 <= i < |rows| ==> Rank(KeyOf(row)) < Rank(KeyOf(rows[i]))
    ensures PutRow(Rewritten(env, columns, sets, rows, ks), row) == [row] + Rewritten(env, columns, sets, rows, ks)
  {
    hide KeyOf, NewRow, KeepsKey;
    if rows != [] {
      NewRowKey(env, columns, sets, rows[0]);
    }
  }

  lemma {:induction false} RewrittenNone(env: Env, columns: seq<string>, sets: seq<(string, Expr)>, rows: seq<Row>)
    ensures Rewritten(env, columns, sets, rows, {}) == rows
  {
    hide KeyOf, NewRow;
    if rows != [] {
      RewrittenNone(env, columns, sets, rows[1..]);
      assert rows == [rows[0]] + rows[1..];
    }
  }

  /** Rewriting the selected rows rewrites exactly the rows that pass, in place, and keeps the keys if
      no assignment names the key column. */
  lemma {:induction false} UpdateExact(env: Env, columns: seq<string>, filter: Option<Expr>, sets: seq<(string, Expr)>,
      rows: seq<Row>)
    requires InOrder(rows)
    ensures var after := Rewritten(env, columns, sets, rows, KeySet(Select(env, columns, filter, rows)));
      forall i :: 0 <= i < |rows| ==>
        && after[i] == (if Passes(env, columns, filter, rows[i]) then NewRow(env, columns, sets, rows[i]) else rows[i])
        && (KeepsKey(columns, sets) ==> KeyOf(after[i]) == KeyOf(rows[i]))
  {
    hide KeyOf, Passes, Select, Rewritten, NewRow, KeepsKey;
    var ks := KeySet(Select(env, columns, filter, rows));
    forall i | 0 <= i < |rows|
      ensures Rewritten(env, columns, sets, rows, ks)[i]
          == (if Passes(env, columns, filter, rows[i]) then NewRow(env, columns, sets, rows[i]) else rows[i])
      ensures KeepsKey(columns, sets) ==> KeyOf(Rewritten(env, columns, sets, rows, ks)[i]) == KeyOf(rows[i])
    {
      SelectedKeys(env, columns, filter, rows, i);
      RewrittenAt(env, columns, sets, rows, ks, i);
      if KeepsKey(columns, sets) {
        NewRowKey(env, columns, sets, rows[i]);
      }
    }
  }

  lemma {:induction false} RewrittenAt(env: Env, columns: seq<string>, sets: seq<(string, Expr)>, rows: seq<Row>,
      ks: set<Key>, i: nat)
    requires i < |rows|
    ensures Rewritten(env, columns, sets, rows, ks)[i] == if KeyOf(rows[i]) in ks
        then NewRow(env, columns, sets, rows[i]) else rows[i]
  {
    hide KeyOf, NewRow;
    if i > 0 {
      RewrittenAt(env, columns, sets, rows[1..], ks, i - 1);
    }
  }

  // ------------------------------------------------------------------
  // Running a plan against a table.
  // ------------------------------------------------------------------

  lemma {:induction false} AllUsable(t: Table)
    requires t.Valid()
    ensures AllOk(t.rows, t.arity)
  {
  }

  lemma {:induction false} Usable(rows: seq<Row>, row: Row, arity: nat)
    requires AllOk(rows, arity) && row in rows
    ensures RowOk(row, arity) && RowKey(row).Some? && KeyOf(row) == RowKey(row).value
  {
  }

  lemma {:induction false} ScanAnswers(env: Env, columns: seq<string>, plan: Plan, rows: seq<Row>)
    ensures plan.SeqScan? ==> Answer(env, columns, plan, rows) == Some(Select(env, columns, plan.filter, rows))
  {
  }

  lemma {:induction false} SelectInOrder(env: Env, columns: seq<string>, filter: Option<Expr>, rows: seq<Row>)
    requires InOrder(rows)
    ensures InOrder(Select(env, columns, filter, rows))
  {
    hide Passes, KeyOf;
    if rows != [] {
      Later(rows);
      SelectInOrder(env, columns, filter, rows[1..]);
      SelectIs(env, columns, filter, rows[1..]);
      var rest := Select(env, columns, filter, rows[1..]);
      forall i | 0 <= i < |rest|
        ensures Rank(KeyOf(rows[0])) < Rank(KeyOf(rest[i]))
      {
        assert rest[i] in rest;
        var j :| 0 <= j < |rows[1..]| && rows[1..][j] == rest[i];
      }
    }
  }

  /** An answer is some of the rows, each once. */
  lemma {:induction false} AnswerIs(env: Env, columns: seq<string>, plan: Plan, rows: seq<Row>)
    requires InOrder(rows) && Answer(env, columns, plan, rows).Some?
    ensures InOrder(Answer(env, columns, plan, rows).value)
    ensures forall row :: row in Answer(env, columns, plan, rows).value ==> row in rows
  {
    hide Passes, KeyOf, Select;
    if plan.SeqScan? {
      SelectIs(env, columns, plan.filter, rows);
      SelectInOrder(env, columns, plan.filter, rows);
    } else {
      EncodedFind(rows, ExprToKey(plan.value).value);
    }
  }

  lemma {:induction false} NoKeys()
    ensures KeySet([]) == {}
  {
  }

  lemma {:induction false} OneMoreKey(src: seq<Row>, n: nat)
    requires InOrder(src) && n < |src|
    ensures KeySet(src[..n + 1]) == KeySet(src[..n]) + {KeyOf(src[n])} && KeyOf(src[n]) !in KeySet(src[..n])
  {
    hide KeyOf;
    assert src[..n + 1] == src[..n] + [src[n]];
    forall i | 0 <= i < n
      ensures KeyOf(src[i]) != KeyOf(src[n])
    {
      assert Rank(KeyOf(src[i])) < Rank(KeyOf(src[n]));
    }
  }

  lemma {:induction false} ReachedOn(env: Env, columns: seq<string>, sets: seq<(string, Expr)>, src: seq<Row>, n: nat)
    requires n < |src| && n <= Reached(env, columns, sets, src)
    ensures Fails(env, columns, sets, src[n]) ==> Reached(env, columns, sets, src) == n
    ensures !Fails(env, columns, sets, src[n]) ==> n < Reached(env, columns, sets, src)
  {
    hide Fails, Reached;
  }

  method ExecScan(t: Table, env: Env, columns: seq<string>, plan: Plan) returns (rows: Option<seq<Row>>)
    requires t.Valid()
    ensures rows == Answer(env, columns, plan, t.rows)
  {
    hide Passes, KeyOf;
    if plan.SeqScan? {
      var all := t.Scan();
      return Some(Select(env, columns, plan.filter, all));
    }
    var key := ExprToKey(plan.value);
    if key.None? {
      return None;
    }
    var found := t.Get(key.value);
    return Some(if found.Some? then [found.value] else []);
  }

  /** Every answered row is deleted by its key. */
  method ExecDelete(t: Table, env: Env, columns: seq<string>, plan: Plan) returns (count: Option<nat>)
    requires t.Valid()
    modifies t, t.tree, t.tree.store
    ensures t.Valid()
    ensures count.None? <==> Answer(env, columns, plan, old(t.rows)).None?
    ensures count.None? ==> t.rows == old(t.rows)
    ensures count.Some? ==>
      var src := Answer(env, columns, plan, old(t.rows)).value;
      count.value == |src| && t.rows == Kept(old(t.rows), KeySet(src))
    ensures plan.SeqScan? ==> count.Some? && t.rows == Rejected(env, columns, plan.filter, old(t.rows))
  {
    hide Table.Valid, Answer, Kept, KeySet, RowKey, KeyOf, Rejected, RowOk, InOrder;
    t.Ordered();
    AllUsable(t);
    var src := ExecScan(t, env, columns, plan);
    ScanAnswers(env, columns, plan, t.rows);
    if src.None? {
      return None;
    }
    ghost var rows := t.rows;
    AnswerIs(env, columns, plan, rows);
    KeptAll(rows);
    NoKeys();
    for n := 0 to |src.value|
      invariant t.Valid() && t.rows == Kept(rows, KeySet(src.value[..n]))
    {
      Usable(rows, src.value[n], t.arity);
      KeptStep(rows, KeySet(src.value[..n]), KeyOf(src.value[n]));
      OneMoreKey(src.value, n);
      var _ := t.Delete(RowKey(src.value[n]).value);
    }
    assert src.value[..|src.value|] == src.value;
    if plan.SeqScan? {
      DeleteExact(env, columns, plan.filter, rows);
    }
    return Some(|src.value|);
  }

  /** The plan is a scan, or looks up a literal of the kind that all the keys have. */
  ghost predicate Sound(columns: seq<string>, filter: Option<Expr>, rows: seq<Row>) {
    var plan := PlanTableScan(columns, filter);
    plan.SeqScan? || (ExprToKey(plan.value).Some? && OneKind(rows, ExprToKey(plan.value).value))
  }

  /** SELECT * with a WHERE clause: the plan's rows, filtered once more unless the plan took the clause
      in.  The answer is the rows that pass if and only if the plan is sound. */
  method ExecSelect(t: Table, env: Env, columns: seq<string>, filter: Option<Expr>) returns (rows: Option<seq<Row>>)
    requires t.Valid()
    ensures rows == Some(Select(env, columns, filter, t.rows)) <==> Sound(columns, filter, t.rows)
    ensures var plan := PlanTableScan(columns, filter); var found := Answer(env, columns, plan, t.rows);
      rows == if found.None? then None else Some(Refiltered(env, columns, plan, filter, found.value))
  {
    hide Table.Valid, Answer, Select, InOrder, AllOk, OneKind, ExprToKey;
    t.Ordered();
    AllUsable(t);
    PlanExact(env, columns, t.arity, filter, t.rows);
    var plan := PlanTableScan(columns, filter);
    rows := ExecScan(t, env, columns, plan);
    if rows.Some? {
      rows := Some(Refiltered(env, columns, plan, filter, rows.value));
    }
  }

  /** DELETE with a WHERE clause: under a sound plan exactly the rows that do not pass remain. */
  method DeleteWhere(t: Table, env: Env, columns: seq<string>, filter: Option<Expr>) returns (count: Option<nat>)
    requires t.Valid()
    modifies t, t.tree, t.tree.store
    ensures t.Valid()
    ensures old(Sound(columns, filter, t.rows)) ==>
      && count == Some(|Select(env, columns, filter, old(t.rows))|)
      && t.rows == Rejected(env, columns, filter, old(t.rows))
    ensures var found := Answer(env, columns, PlanTableScan(columns, filter), old(t.rows));
      && (count.Some? <==> found.Some?)
      && t.rows == if found.Some? then Kept(old(t.rows), KeySet(found.value)) else old(t.rows)
  {
    hide Table.Valid, Answer, Select, InOrder, AllOk, OneKind, ExprToKey, Kept, Rejected, KeySet;
    t.Ordered();
    AllUsable(t);
    PlanExact(env, columns, t.arity, filter, t.rows);
    DeleteExact(env, columns, filter, t.rows);
    count := ExecDelete(t, env, columns, PlanTableScan(columns, filter));
  }

  // ------------------------------------------------------------------
  // UPDATE.
  // ------------------------------------------------------------------

  /** Rewriting the row fails: an assignment does not evaluate, or the new row has no usable key. */
  predicate Fails(env: Env, columns: seq<string>, sets: seq<(string, Expr)>, row: Row) {
    Assigned(env, columns, sets, row).None? || RowKey(NewRow(env, columns, sets, row)).None?
  }

  /** The rows that an update of `src` rewrites: those before the first that fails. */
  function Reached(env: Env, columns: seq<string>, sets: seq<(string, Expr)>, src: seq<Row>): (n: nat)
    ensures n <= |src|
    ensures n < |src| ==> Fails(env, columns, sets, src[n])
    ensures forall i :: 0 <= i < n ==> !Fails(env, columns, sets, src[i])
  {
    if src == [] || Fails(env, columns, sets, src[0]) then 0
    else 1 + Reached(env, columns, sets, src[1..])
  }

  /** Each row of `src` in turn goes by its old key, and its new form takes the place of the new key. */
  function Moved(env: Env, columns: seq<string>, sets: seq<(string, Expr)>, rows: seq<Row>, src: seq<Row>): seq<Row> {
    if src == [] then rows
    else
      var row := src[|src| - 1];
      PutRow(DropRow(Moved(env, columns, sets, rows, src[..|src| - 1]), KeyOf(row)), NewRow(env, columns, sets, row))
  }

  /** Where an update stops: after the rows it reached, with the old form of the next one gone too if
      only its new key was unusable. */
  function Stopped(env: Env, columns: seq<string>, sets: seq<(string, Expr)>, rows: seq<Row>, src: seq<Row>): seq<Row> {
    var n := Reached(env, columns, sets, src);
    var moved := Moved(env, columns, sets, rows, src[..n]);
    if n < |src| && Assigned(env, columns, sets, src[n]).Some? then DropRow(moved, KeyOf(src[n])) else moved
  }

  method Assign(env: Env, columns: seq<string>, sets: seq<(string, Expr)>, row: Row) returns (r: Option<Row>)
    ensures r == Assigned(env, columns, sets, row)
  {
    hide Eval, IndexOf;
    var vals := row;
    for n := 0 to |sets|
      invariant |vals| == |row| && Assigned(env, columns, sets[..n], row) == Some(vals)
    {
      assert sets[..n + 1][..n] == sets[..n];
      var i, v := IndexOf(columns, sets[n].0), Eval(env, sets[n].1, row, columns);
      if i.None? || v.None? || i.value >= |row| {
        AssignedFails(env, columns, sets, row, n);
        return None;
      }
      vals := vals[i.value := v.value];
    }
    assert sets[..|sets|] == sets;
    return Some(vals);
  }

  /** One assignment that fails makes them all fail. */
  lemma {:induction false} AssignedFails(env: Env, columns: seq<string>, sets: seq<(string, Expr)>, row: Row, n: nat)
    requires n < |sets| && Assigned(env, columns, sets[..n + 1], row).None?
    ensures Assigned(env, columns, sets, row).None?
  {
    hide Eval, IndexOf;
    if n + 1 == |sets| {
      assert sets[..n + 1] == sets;
    } else {
      assert sets[..|sets| - 1][..n + 1] == sets[..n + 1];
      AssignedFails(env, columns, sets[..|sets| - 1], row, n);
    }
  }

  /** Each answered row is deleted and put back with its assignments made.  An error stops half-way:
      the rows before it stay rewritten.  If no assignment names the key column, the rows reached are
      rewritten in place. */
  method ExecUpdate(t: Table, env: Env, columns: seq<string>, plan: Plan, sets: seq<(string, Expr)>)
      returns (count: Option<nat>)
    requires t.Valid() && !t.tree.store.file
    requires forall row :: row in t.rows ==> Storable(NewRow(env, columns, sets, row))
    modifies t, t.tree, t.tree.store
    ensures t.Valid()
    ensures Answer(env, columns, plan, old(t.rows)).None? ==> count.None? && t.rows == old(t.rows)
    ensures Answer(env, columns, plan, old(t.rows)).Some? ==>
      var src := Answer(env, columns, plan, old(t.rows)).value;
      var n := Reached(env, columns, sets, src);
      && (count == if n == |src| then Some(n) else None)
      && t.rows == Stopped(env, columns, sets, old(t.rows), src)
      && (KeepsKey(columns, sets) ==> t.rows == Rewritten(env, columns, sets, old(t.rows), KeySet(src[..n])))
  {
    hide Table.Valid, Answer, Rewritten, KeySet, RowKey, KeyOf, RowOk, InOrder, Assigned, NewRow, KeepsKey, Reached,
      Storable, Moved;
    t.Ordered();
    t.Unlimited();
    AllUsable(t);
    var src := ExecScan(t, env, columns, plan);
    if src.None? {
      return None;
    }
    ghost var rows := t.rows;
    AnswerIs(env, columns, plan, rows);
    NotMoved(env, columns, sets, rows);
    if KeepsKey(columns, sets) {
      StoppedInPlace(env, columns, sets, rows, src.value, t.arity);
    }
    for n := 0 to |src.value|
      invariant t.Valid() && t.rows == Moved(env, columns, sets, rows, src.value[..n])
      invariant n <= Reached(env, columns, sets, src.value)
    {
      var row := src.value[n];
      var next := Assign(env, columns, sets, row);
      ReachedOn(env, columns, sets, src.value, n);
      if next.None? {
        return None;
      }
      Usable(rows, row, t.arity);
      NextRow(env, columns, sets, row, t.arity);
      OneMoreMove(env, columns, sets, rows, src.value, n);
      var _ := t.Delete(RowKey(row).value);
      var ok := t.Insert(next.value);
      if !ok {
        return None;
      }
    }
    assert src.value[..|src.value|] == src.value;
    return Some(|src.value|);
  }

  /** UPDATE with a WHERE clause, under a sound plan: the rows that pass are moved one after the other,
      and it reports failure if and only if one of them fails.  If none fails and the key column is not
      assigned, exactly those rows are rewritten, in place, and every key stays. */
  method UpdateWhere(t: Table, env: Env, columns: seq<string>, filter: Option<Expr>, sets: seq<(string, Expr)>)
      returns (count: Option<nat>)
    requires t.Valid() && !t.tree.store.file
    requires forall row :: row in t.rows ==> Storable(NewRow(env, columns, sets, row))
    modifies t, t.tree, t.tree.store
    ensures t.Valid()
    ensures old(Sound(columns, filter, t.rows)) ==>
      var rows := old(t.rows); var src := Select(env, columns, filter, rows);
      && t.rows == Stopped(env, columns, sets, rows, src)
      && (count.None? <==> exists i ::
            0 <= i < |rows| && Passes(env, columns, filter, rows[i]) && Fails(env, columns, sets, rows[i]))
      && (count.Some? ==> count.value == |src| && t.rows == Moved(env, columns, sets, rows, src))
      && (count.Some? && KeepsKey(columns, sets) ==>
          && |t.rows| == |rows|
          && forall i :: 0 <= i < |rows| ==>
            && t.rows[i] == (if Passes(env, columns, filter, rows[i]) then NewRow(env, columns, sets, rows[i])
                             else rows[i])
            && KeyOf(t.rows[i]) == KeyOf(rows[i]))
  {
    hide Table.Valid, Answer, Select, InOrder, AllOk, OneKind, ExprToKey, KeySet, Rewritten, Moved, Reached, Fails,
      Passes, KeyOf, NewRow, Storable, KeepsKey, Stopped;
    t.Ordered();
    AllUsable(t);
    ghost var rows := t.rows;
    PlanExact(env, columns, t.arity, filter, t.rows);
    count := ExecUpdate(t, env, columns, PlanTableScan(columns, filter), sets);
    ghost var src := Select(env, columns, filter, rows);
    SomeFails(env, columns, filter, sets, rows);
    if Reached(env, columns, sets, src) == |src| {
      assert src[..|src|] == src;
      AllMoved(env, columns, sets, rows, src);
      if KeepsKey(columns, sets) {
        UpdateExact(env, columns, filter, sets, rows);
      }
    }
  }

  lemma {:induction false} SomeFails(env: Env, columns: seq<string>, filter: Option<Expr>, sets: seq<(string, Expr)>,
      rows: seq<Row>)
    ensures var src := Select(env, columns, filter, rows);
      Reached(env, columns, sets, src) < |src| <==>
        exists i :: 0 <= i < |rows| && Passes(env, columns, filter, rows[i]) && Fails(env, columns, sets, rows[i])
  {
    hide Passes, Fails, Select;
    var src := Select(env, columns, filter, rows);
    SelectIs(env, columns, filter, rows);
    var n := Reached(env, columns, sets, src);
    if n < |src| {
      assert src[n] in src;
    }
    forall i | 0 <= i < |rows| && Passes(env, columns, filter, rows[i])
      ensures exists k :: 0 <= k < |src| && src[k] == rows[i]
    {
      assert rows[i] in src;
    }
  }

  lemma {:induction false} AllMoved(env: Env, columns: seq<string>, sets: seq<(string, Expr)>, rows: seq<Row>,
      src: seq<Row>)
    requires Reached(env, columns, sets, src) == |src|
    ensures Stopped(env, columns, sets, rows, src) == Moved(env, columns, sets, rows, src)
  {
    hide Moved, Reached;
    assert src[..|src|] == src;
  }

  lemma {:induction false} NotMoved(env: Env, columns: seq<string>, sets: seq<(string, Expr)>, rows: seq<Row>)
    ensures Moved(env, columns, sets, rows, []) == rows
  {
  }

  lemma {:induction false} OneMoreMove(env: Env, columns: seq<string>, sets: seq<(string, Expr)>, rows: seq<Row>,
      src: seq<Row>, n: nat)
    requires n < |src|
    ensures Moved(env, columns, sets, rows, src[..n + 1]) ==
      PutRow(DropRow(Moved(env, columns, sets, rows, src[..n]), KeyOf(src[n])), NewRow(env, columns, sets, src[n]))
  {
    hide KeyOf, NewRow;
    assert src[..n + 1][..n] == src[..n];
  }

  lemma {:induction false} NextRow(env: Env, columns: seq<string>, sets: seq<(string, Expr)>, row: Row, arity: nat)
    requires Assigned(env, columns, sets, row).Some? && |row| == arity && Storable(NewRow(env, columns, sets, row))
    ensures NewRow(env, columns, sets, row) == Assigned(env, columns, sets, row).value
    ensures RowKey(NewRow(env, columns, sets, row)).Some? ==> RowOk(NewRow(env, columns, sets, row), arity)
  {
    hide Assigned;
  }

  /** Moving rows that keep their keys is rewriting them in place. */
  lemma {:induction false} MovedInPlace(env: Env, columns: seq<string>, sets: seq<(string, Expr)>, rows: seq<Row>,
      src: seq<Row>, n: nat)
    requires InOrder(rows) && InOrder(src) && KeepsKey(columns, sets) && n <= |src| && forall r ::
        r in src ==> r in rows
    ensures Moved(env, columns, sets, rows, src[..n]) == Rewritten(env, columns, sets, rows, KeySet(src[..n]))
  {
    hide Rewritten, KeySet, KeyOf, InOrder, KeepsKey, NewRow;
    if n == 0 {
      RewrittenNone(env, columns, sets, rows);
      NoKeys();
    } else {
      MovedInPlace(env, columns, sets, rows, src, n - 1);
      OneMoreMove(env, columns, sets, rows, src, n - 1);
      OneMoreKey(src, n - 1);
      assert src[n - 1] in rows;
      var i :| 0 <= i < |rows| && rows[i] == src[n - 1];
      RewriteStep(env, columns, sets, rows, KeySet(src[..n - 1]), i);
    }
  }

  lemma {:induction false} StoppedInPlace(env: Env, columns: seq<string>, sets: seq<(string, Expr)>, rows: seq<Row>,
      src: seq<Row>, arity: nat)
    requires AllOk(rows, arity) && InOrder(rows) && InOrder(src) && KeepsKey(columns, sets) && forall r ::
        r in src ==> r in rows
    ensures var n := Reached(env, columns, sets, src);
      Stopped(env, columns, sets, rows, src) == Rewritten(env, columns, sets, rows, KeySet(src[..n]))
  {
    hide Rewritten, KeySet, KeyOf, InOrder, KeepsKey, NewRow, Moved, Assigned, RowKey, Reached;
    var n := Reached(env, columns, sets, src);
    MovedInPlace(env, columns, sets, rows, src, n);
    if n < |src| {
      assert src[n] in rows;
      Usable(rows, src[n], arity);
      NewRowKey(env, columns, sets, src[n]);
    }
  }
}
